/** PUBLISH frames: mqtt_frame_put_publish and mqtt_frame_get_publish. */
module PublishFrame {
  import opened MqttTypes
  import opened Bytes
  import opened Buffer

  const PUBLISH_CODE: Byte := 3

  /** The remaining length that the writer declares. */
  function PublishSize(a: PublishArgs): nat {
    (if a.qos == AT_MOST_ONCE then 0 else 2) + (|a.topic| + 2) + |a.data|
  }

  /** Type, DUP, QoS and RETAIN as section 3.3.1 of MQTT 3.1.1 lays them out. */
  function PublishHeader(a: PublishArgs): Byte {
    0x30 | (if a.dup then 8 else 0) | ((a.qos & 3) << 1) | (if a.retain then 1 else 0)
  }

  function PublishBody(a: PublishArgs): seq<Byte> {
    StringBytes(a.topic) + (if a.qos == AT_MOST_ONCE then [] else ShortBytes(a.packetId)) + a.data
  }

  function PublishBytes(a: PublishArgs): seq<Byte> {
    [PublishHeader(a)] + LengthBytes(PublishSize(a)) + PublishBody(a)
  }

  /** The declared length is the number of bytes after the length field. */
  lemma DeclaredLengthIsExact(a: PublishArgs)
    ensures |PublishBody(a)| == PublishSize(a)
    ensures |PublishBytes(a)| == 1 + |LengthBytes(PublishSize(a))| + PublishSize(a)
  {
  }

  /** The four bit fields overwrite the whole first byte, whatever was there. */
  lemma HeaderIsOverwritten(was: Byte, a: PublishArgs)
    ensures Set4Bit(SetBit(Set2Bit(SetBit(was, a.retain, 0), a.qos, 1), a.dup, 3), PUBLISH_CODE, 4) == PublishHeader(a)
  {
  }

  /** The first byte of section 3.3.1: type 3 in the high nibble, then DUP, two bits of QoS, and RETAIN. */
  lemma HeaderLayout(a: PublishArgs)
    requires a.qos <= 3
    ensures PublishHeader(a) as int == 3 * 16 + (if a.dup then 8 else 0) + 2 * a.qos as int + if a.retain then 1 else 0
  {
    HeaderSum(a.dup, a.qos, a.retain);
    hide PublishHeader;
    HeaderIsSum(a);
  }

  lemma HeaderIsSum(a: PublishArgs)
    requires a.qos <= 3
    ensures PublishHeader(a) == 0x30 + (if a.dup then 8 else 0) + 2 * a.qos + if a.retain then 1 else 0
  {
  }

  lemma HeaderSum(dup: bool, qos: Byte, retain: bool)
    requires qos <= 3
    ensures (0x30 + (if dup then 8 else 0) + 2 * qos + if retain then 1 else 0) as int
      == 0x30 + (if dup then 8 else 0) + 2 * qos as int + if retain then 1 else 0
  {
    assert qos in {0, 1, 2, 3};
  }

  /** The whole frame of section 3.3: first byte, length, and body. */
  ghost predicate IsPublish(s: seq<Byte>, a: PublishArgs) {
    && s != []
    && s[0] as int == 3 * 16 + (if a.dup then 8 else 0) + 2 * a.qos as int + (if a.retain then 1 else 0)
    && exists field, body :: s[1..] == field + body && IsBase128(field, |body|) && LaidOut(body, a)
  }

  lemma PublishLayout(a: PublishArgs)
    requires a.qos <= 3
    ensures IsPublish(PublishBytes(a), a)
  {
    HeaderLayout(a);
    DeclaredLengthIsExact(a);
    LengthIsBase128(PublishSize(a));
    BodyLayout(a);
    hide PublishHeader;
    hide LengthBytes;
    hide PublishBody;
    hide LaidOut;
    hide IsBase128;
    BehindFirst(PublishHeader(a), LengthBytes(PublishSize(a)), PublishBody(a));
    hide PublishSize;
  }

  lemma BehindFirst(first: Byte, field: seq<Byte>, body: seq<Byte>)
    ensures ([first] + field + body)[0] == first && ([first] + field + body)[1..] == field + body
  {
  }

  /** What follows the length field, by section 3.3.2. */
  ghost predicate LaidOut(body: seq<Byte>, a: PublishArgs) {
    var t := 2 + |a.topic|;
    var i := if a.qos == 0 then 0 else 2;
    && |body| == t + i + |a.data|
    && BigEndian(body[..2]) == |a.topic| && body[2..t] == a.topic
    && (i == 2 ==> BigEndian(body[t..t + 2]) == a.packetId)
    && body[t + i..] == a.data
  }

  lemma FourParts(x: seq<Byte>, y: seq<Byte>, z: seq<Byte>, w: seq<Byte>)
    ensures var s := x + y + z + w;
      && s[..|x|] == x && s[|x|..|x| + |y|] == y && s[|x| + |y|..|x| + |y| + |z|] == z && s[|x| + |y| + |z|..] == w
  {
  }

  lemma PartsAreLaidOut(length: seq<Byte>, id: seq<Byte>, a: PublishArgs)
    requires |length| == 2 && BigEndian(length) == |a.topic|
    requires |id| == (if a.qos == 0 then 0 else 2) && (id != [] ==> BigEndian(id) == a.packetId)
    ensures LaidOut(length + a.topic + id + a.data, a)
  {
    hide BigEndian;
    FourParts(length, a.topic, id, a.data);
  }

  lemma BodyLayout(a: PublishArgs)
    ensures LaidOut(PublishBody(a), a)
  {
    ShortIsBigEndian(|a.topic|);
    ShortIsBigEndian(a.packetId);
    hide ShortBytes;
    hide BigEndian;
    hide LaidOut;
    PartsAreLaidOut(ShortBytes(|a.topic|), if a.qos == AT_MOST_ONCE then [] else ShortBytes(a.packetId), a);
  }

  /** `size` is the frame's count of length bytes. */
  method PutPublish(buf: Buffer, a: PublishArgs) returns (size: nat)
    requires PublishSize(a) < UINT32 && buf.Fits(|PublishBytes(a)|)
    modifies buf`pos, buf.data
    ensures buf.data[..] == Spliced(old(buf.data[..]), old(buf.pos), PublishBytes(a))
    ensures buf.pos == old(buf.pos) + |PublishBytes(a)| && size == |LengthBytes(PublishSize(a))|
  {
    hide Spliced;
    DeclaredLengthIsExact(a);
    hide PublishHeader;
    hide PublishBody;
    hide LengthBytes;
    PutHeader(buf, a);
    ghost var field, body := LengthBytes(PublishSize(a)), PublishBody(a);
    SplicedTwice(old(buf.data[..]), old(buf.pos), [PublishHeader(a)], field);
    size := buf.PutVariableLength(PublishSize(a));
    SplicedTwice(old(buf.data[..]), old(buf.pos), [PublishHeader(a)] + field, body);
    PutBody(buf, a);
  }

  method PutHeader(buf: Buffer, a: PublishArgs)
    requires buf.Fits(1)
    modifies buf`pos, buf.data
    ensures buf.data[..] == Spliced(old(buf.data[..]), old(buf.pos), [PublishHeader(a)]) && buf.pos == old(buf.pos) + 1
  {
    hide SetBit;
    hide Set2Bit;
    hide Set4Bit;
    HeaderIsOverwritten(buf.data[buf.pos], a);
    SplicedOctet(buf.data[..], buf.pos, PublishHeader(a));
    buf.PutBit(a.retain, 0, false);
    buf.Put2Bit(a.qos, 1, false);
    buf.PutBit(a.dup, 3, false);
    buf.Put4Bit(PUBLISH_CODE, 4, true);
  }

  method PutBody(buf: Buffer, a: PublishArgs)
    requires buf.Fits(|PublishBody(a)|)
    modifies buf`pos, buf.data
    ensures buf.data[..] == Spliced(old(buf.data[..]), old(buf.pos), PublishBody(a))
    ensures buf.pos == old(buf.pos) + |PublishBody(a)|
  {
    hide Spliced;
    hide ShortBytes;
    ghost var topic := StringBytes(a.topic);
    buf.PutString(a.topic);
    if a.qos != AT_MOST_ONCE {
      SplicedTwice(old(buf.data[..]), old(buf.pos), topic, ShortBytes(a.packetId));
      buf.PutShort(a.packetId);
      topic := topic + ShortBytes(a.packetId);
    }
    SplicedTwice(old(buf.data[..]), old(buf.pos), topic, a.data);
    buf.PutBytes(a.data);
    assert topic + a.data == PublishBody(a);
  }

  // ---------- Reading ----------

  /** The bytes of the packet id field. */
  function IdSize(header: Byte): nat {
    if Get2Bit(header, 1) == AT_MOST_ONCE then 0 else 2
  }

  /** The remaining length covers the topic and the packet id, and that many bytes are there. */
  predicate BodyFits(header: Byte, tail: seq<Byte>, size: nat) {
    2 <= size <= |tail| && 2 + ShortAt(tail) + IdSize(header) <= size
  }

  /** What the reader makes of header and body; a QoS 0 frame leaves the packet id field as it `was`. */
  function BodyArgs(header: Byte, tail: seq<Byte>, size: nat, was: PacketId): PublishArgs
    requires BodyFits(header, tail, size)
  {
    var t := 2 + ShortAt(tail);
    PublishArgs(if Get2Bit(header, 1) == AT_MOST_ONCE then was else ShortAt(tail[t..]),
                GetBit(header, 3), GetBit(header, 0), Get2Bit(header, 1), tail[2..t], tail[t + IdSize(header)..size])
  }

  /** The remaining length that the reader's 32-bit loop finds in a frame. */
  function RemainingAt(s: seq<Byte>): nat
    requires s != [] && Terminated(s[1..])
  {
    Accumulated(s[1..][..FieldSize(s[1..])], 0, 1)
  }

  /** What follows the length field of a frame. */
  function TailAt(s: seq<Byte>): seq<Byte>
    requires s != [] && Terminated(s[1..])
  {
    s[1..][FieldSize(s[1..])..]
  }

  predicate WellFormed(s: seq<Byte>) {
    s != [] && Terminated(s[1..]) && BodyFits(s[0], TailAt(s), RemainingAt(s))
  }

  function PublishAt(s: seq<Byte>, was: PacketId): PublishArgs
    requires WellFormed(s)
  {
    BodyArgs(s[0], TailAt(s), RemainingAt(s), was)
  }

  method GetPublish(buf: Buffer, was: PacketId) returns (a: PublishArgs)
    requires buf.Fits(0) && WellFormed(buf.Ahead())
    modifies buf`pos
    ensures a == PublishAt(old(buf.Ahead()), was)
  {
    ghost var s := buf.Ahead();
    var header := buf.GetOctet();
    assert buf.Ahead() == s[1..];
    var size := buf.GetVariableLength();
    assert buf.Ahead() == TailAt(s);
    a := GetBody(buf, header, size, was);
  }

  lemma SliceOfTail(b: seq<Byte>, p: nat, i: nat, j: nat)
    requires i <= j && p + j <= |b|
    ensures b[p..][i..j] == b[p + i..p + j]
  {
  }

  /** The reader's last part: topic, packet id and payload. */
  method GetBody(buf: Buffer, header: Byte, size: nat, was: PacketId) returns (a: PublishArgs)
    requires buf.Fits(0) && BodyFits(header, buf.Ahead(), size)
    modifies buf`pos
    ensures a == BodyArgs(header, old(buf.Ahead()), size, was)
  {
    hide GetBit;
    hide Get2Bit;
    hide ShortAt;
    ghost var tail := buf.Ahead();
    var qos := Get2Bit(header, 1);
    var topic := buf.GetString();
    assert buf.Ahead() == tail[2 + |topic|..];
    var packetId := was;
    if qos != AT_MOST_ONCE {
      packetId := buf.GetShort();
    }
    assert buf.pos == old(buf.pos) + 2 + |topic| + IdSize(header);
    var len := size - (if qos != AT_MOST_ONCE then 2 else 0) - |topic| - 2;
    SliceOfTail(buf.data[..], old(buf.pos), 2 + |topic| + IdSize(header), size);
    a := PublishArgs(packetId, GetBit(header, 3), GetBit(header, 0), qos, topic, buf.data[buf.pos..buf.pos + len]);
  }

  // ---------- Round trip ----------

  lemma HeaderRoundTrip(a: PublishArgs)
    requires a.qos <= 3
    ensures GetBit(PublishHeader(a), 0) == a.retain && Get2Bit(PublishHeader(a), 1) == a.qos
    ensures GetBit(PublishHeader(a), 3) == a.dup && PublishHeader(a) & 0xF0 == 0x30
  {
  }

  /** What a QoS 0 frame does not carry. */
  function Received(a: PublishArgs, was: PacketId): PublishArgs {
    a.(packetId := if a.qos == AT_MOST_ONCE then was else a.packetId)
  }

  lemma BodyRoundTrip(a: PublishArgs, rest: seq<Byte>, was: PacketId)
    requires a.qos <= 3
    ensures BodyFits(PublishHeader(a), PublishBody(a) + rest, PublishSize(a))
    ensures BodyArgs(PublishHeader(a), PublishBody(a) + rest, PublishSize(a), was) == Received(a, was)
  {
    hide ShortBytes;
    hide ShortAt;
    HeaderRoundTrip(a);
    hide PublishHeader;
    var id := if a.qos == AT_MOST_ONCE then [] else ShortBytes(a.packetId);
    var tail := PublishBody(a) + rest;
    var t := 2 + |a.topic|;
    assert tail == ShortBytes(|a.topic|) + (a.topic + id + a.data + rest);
    ShortRoundTrip(|a.topic|, a.topic + id + a.data + rest);
    assert tail[2..t] == a.topic;
    assert tail[t..] == id + (a.data + rest);
    if a.qos != AT_MOST_ONCE {
      ShortRoundTrip(a.packetId, a.data + rest);
    }
    assert tail[t + |id|..PublishSize(a)] == a.data;
  }

  /** A written PUBLISH reads back as it was, whatever follows it; only a QoS 0 packet id is not on the wire. */
  lemma PublishRoundTrip(a: PublishArgs, rest: seq<Byte>, was: PacketId)
    requires a.qos <= 3 && PublishSize(a) < UINT32
    ensures WellFormed(PublishBytes(a) + rest)
    ensures PublishAt(PublishBytes(a) + rest, was) == Received(a, was)
  {
    hide PublishHeader;
    hide LengthBytes;
    var s, field, body := PublishBytes(a) + rest, LengthBytes(PublishSize(a)), PublishBody(a);
    assert s[1..] == field + (body + rest);
    LengthRoundTrip(PublishSize(a), body + rest);
    assert TailAt(s) == body + rest;
    BodyRoundTrip(a, rest, was);
  }

  /** Reading at the place of writing gives the message back, whatever the buffer held before. */
  lemma WrittenThenRead(before: seq<Byte>, p: nat, a: PublishArgs, was: PacketId)
    requires a.qos <= 3 && PublishSize(a) < UINT32 && p + |PublishBytes(a)| <= |before|
    ensures WellFormed(Spliced(before, p, PublishBytes(a))[p..])
    ensures PublishAt(Spliced(before, p, PublishBytes(a))[p..], was) == Received(a, was)
  {
    hide PublishBytes;
    PublishRoundTrip(a, before[p + |PublishBytes(a)|..], was);
    assert Spliced(before, p, PublishBytes(a))[p..] == PublishBytes(a) + before[p + |PublishBytes(a)|..];
  }
}
