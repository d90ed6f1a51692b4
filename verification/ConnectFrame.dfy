/** CONNECT frames: mqtt_frame_put_connect, read back the way section 3.1 of MQTT 3.1.1 says a server reads them. */
module ConnectFrame {
  import opened MqttTypes
  import opened Bytes
  import opened Buffer
  import opened Options

  const CONNECT_CODE: Byte := 1
  const NAME_VER4: seq<Byte> := [0x4D, 0x51, 0x54, 0x54]              // "MQTT"
  const NAME_VER3: seq<Byte> := [0x4D, 0x51, 0x49, 0x73, 0x64, 0x70]  // "MQIsdp"

  function FieldSizeOf(sent: bool, s: MqttString): nat {
    if sent then |s| + 2 else 0
  }

  /** The remaining length that the writer declares. */
  function ConnectSize(a: ConnectArgs): nat {
    |a.clientId| + 2 + FieldSizeOf(a.willFlag, a.willMessage) + FieldSizeOf(a.willFlag, a.willTopic)
    + FieldSizeOf(a.usernameFlag, a.username) + FieldSizeOf(a.passwordFlag, a.password)
    + if a.version == 4 then 10 else 12
  }

  function ConnectFlags(a: ConnectArgs): Byte {
    (if a.cleanSession then 2 else 0) | (if a.willFlag then 4 else 0) | ((a.willQos & 3) << 3)
    | (if a.willRetain then 0x20 else 0) | (if a.usernameFlag then 0x40 else 0) | (if a.passwordFlag then 0x80 else 0)
  }

  function Optional(sent: bool, s: MqttString): seq<Byte> {
    if sent then StringBytes(s) else []
  }

  function TwoStrings(first: bool, s: MqttString, second: bool, t: MqttString): seq<Byte> {
    Optional(first, s) + Optional(second, t)
  }

  function Preamble(a: ConnectArgs): seq<Byte> {
    (if a.version == 4 then StringBytes(NAME_VER4) + [4] else StringBytes(NAME_VER3) + [3])
    + [ConnectFlags(a)] + ShortBytes(0)
  }

  function Payload(a: ConnectArgs): seq<Byte> {
    StringBytes(a.clientId)
    + (TwoStrings(a.willFlag, a.willTopic, a.willFlag, a.willMessage)
       + TwoStrings(a.usernameFlag, a.username, a.passwordFlag, a.password))
  }

  function ConnectBytes(a: ConnectArgs): seq<Byte> {
    [0x10] + LengthBytes(ConnectSize(a)) + (Preamble(a) + Payload(a))
  }

  /** For every version and every combination of flags, the declared length is the number of bytes that follow it. */
  lemma DeclaredLengthIsExact(a: ConnectArgs)
    ensures |Preamble(a) + Payload(a)| == ConnectSize(a)
  {
    hide ShortBytes;
    hide ConnectFlags;
  }

  lemma TypeIsOverwritten(was: Byte)
    ensures Set4Bit(Set4Bit(was, 0, 0), CONNECT_CODE, 4) == 0x10
  {
  }

  /** The seven bit fields overwrite the whole flags byte, whatever was there. */
  lemma FlagsAreOverwritten(was: Byte, a: ConnectArgs)
    ensures SetBit(SetBit(SetBit(Set2Bit(SetBit(SetBit(SetBit(was, false, 0), a.cleanSession, 1), a.willFlag, 2),
                                         a.willQos, 3), a.willRetain, 5), a.usernameFlag, 6), a.passwordFlag, 7)
      == ConnectFlags(a)
  {
  }

  method PutType(buf: Buffer)
    requires buf.Fits(1)
    modifies buf`pos, buf.data
    ensures buf.data[..] == Spliced(old(buf.data[..]), old(buf.pos), [0x10]) && buf.pos == old(buf.pos) + 1
  {
    TypeIsOverwritten(buf.data[buf.pos]);
    SplicedOctet(buf.data[..], buf.pos, 0x10);
    hide Set4Bit;
    buf.Put4Bit(0, 0, false);
    buf.Put4Bit(CONNECT_CODE, 4, true);
  }

  method PutFlags(buf: Buffer, a: ConnectArgs)
    requires buf.Fits(1)
    modifies buf`pos, buf.data
    ensures buf.data[..] == Spliced(old(buf.data[..]), old(buf.pos), [ConnectFlags(a)]) && buf.pos == old(buf.pos) + 1
  {
    FlagsAreOverwritten(buf.data[buf.pos], a);
    hide SetBit;
    hide Set2Bit;
    hide ConnectFlags;
    SplicedOctet(buf.data[..], buf.pos, ConnectFlags(a));
    buf.PutBit(false, 0, false);
    buf.PutBit(a.cleanSession, 1, false);
    buf.PutBit(a.willFlag, 2, false);
    buf.Put2Bit(a.willQos, 3, false);
    buf.PutBit(a.willRetain, 5, false);
    buf.PutBit(a.usernameFlag, 6, false);
    buf.PutBit(a.passwordFlag, 7, true);
  }

  method PutPreamble(buf: Buffer, a: ConnectArgs)
    requires buf.Fits(|Preamble(a)|)
    modifies buf`pos, buf.data
    ensures buf.data[..] == Spliced(old(buf.data[..]), old(buf.pos), Preamble(a)) && buf.pos == old(buf.pos) + |Preamble(a)|
  {
    hide Spliced;
    hide ShortBytes;
    hide ConnectFlags;
    ghost var before, p := buf.data[..], buf.pos;
    ghost var done: seq<Byte>;
    if a.version == 4 {
      buf.PutString(NAME_VER4);
      SplicedTwice(before, p, StringBytes(NAME_VER4), [4]);
      buf.PutOctet(4);
      done := StringBytes(NAME_VER4) + [4];
    } else {
      buf.PutString(NAME_VER3);
      SplicedTwice(before, p, StringBytes(NAME_VER3), [3]);
      buf.PutOctet(3);
      done := StringBytes(NAME_VER3) + [3];
    }
    SplicedTwice(before, p, done, [ConnectFlags(a)]);
    PutFlags(buf, a);
    SplicedTwice(before, p, done + [ConnectFlags(a)], ShortBytes(0));
    buf.PutShort(0);
  }

  method PutOptional(buf: Buffer, sent: bool, s: MqttString)
    requires buf.Fits(|Optional(sent, s)|)
    modifies buf`pos, buf.data
    ensures buf.data[..] == Spliced(old(buf.data[..]), old(buf.pos), Optional(sent, s))
    ensures buf.pos == old(buf.pos) + |Optional(sent, s)|
  {
    if sent {
      buf.PutString(s);
    }
  }

  method PutTwo(buf: Buffer, first: bool, s: MqttString, second: bool, t: MqttString)
    requires buf.Fits(|TwoStrings(first, s, second, t)|)
    modifies buf`pos, buf.data
    ensures buf.data[..] == Spliced(old(buf.data[..]), old(buf.pos), TwoStrings(first, s, second, t))
    ensures buf.pos == old(buf.pos) + |TwoStrings(first, s, second, t)|
  {
    hide Spliced;
    hide Optional;
    SplicedTwice(buf.data[..], buf.pos, Optional(first, s), Optional(second, t));
    PutOptional(buf, first, s);
    PutOptional(buf, second, t);
  }

  method PutPayload(buf: Buffer, a: ConnectArgs)
    requires buf.Fits(|Payload(a)|)
    modifies buf`pos, buf.data
    ensures buf.data[..] == Spliced(old(buf.data[..]), old(buf.pos), Payload(a)) && buf.pos == old(buf.pos) + |Payload(a)|
  {
    hide Spliced;
    hide StringBytes;
    hide TwoStrings;
    ghost var will := TwoStrings(a.willFlag, a.willTopic, a.willFlag, a.willMessage);
    ghost var login := TwoStrings(a.usernameFlag, a.username, a.passwordFlag, a.password);
    SplicedTwice(buf.data[..], buf.pos, StringBytes(a.clientId), will + login);
    buf.PutString(a.clientId);
    SplicedTwice(buf.data[..], buf.pos, will, login);
    PutTwo(buf, a.willFlag, a.willTopic, a.willFlag, a.willMessage);
    PutTwo(buf, a.usernameFlag, a.username, a.passwordFlag, a.password);
  }

  method PutConnect(buf: Buffer, a: ConnectArgs) returns (size: nat)
    requires buf.Fits(|ConnectBytes(a)|)
    modifies buf`pos, buf.data
    ensures buf.data[..] == Spliced(old(buf.data[..]), old(buf.pos), ConnectBytes(a))
    ensures buf.pos == old(buf.pos) + |ConnectBytes(a)| && size == |LengthBytes(ConnectSize(a))|
  {
    hide Spliced;
    hide LengthBytes;
    hide Preamble;
    hide Payload;
    ghost var field := LengthBytes(ConnectSize(a));
    SplicedTwice(buf.data[..], buf.pos, [0x10], field + (Preamble(a) + Payload(a)));
    assert [0x10] + (field + (Preamble(a) + Payload(a))) == ConnectBytes(a);
    PutType(buf);
    SplicedTwice(buf.data[..], buf.pos, field, Preamble(a) + Payload(a));
    size := buf.PutVariableLength(ConnectSize(a));
    SplicedTwice(buf.data[..], buf.pos, Preamble(a), Payload(a));
    PutPreamble(buf, a);
    PutPayload(buf, a);
  }

  // ---------- A server's reading ----------

  function TakeString(s: seq<Byte>): Option<(MqttString, seq<Byte>)> {
    if |s| < 2 || |s| < 2 + ShortAt(s) then None
    else Some((s[2..2 + ShortAt(s)], s[2 + ShortAt(s)..]))
  }

  function TakeOptional(sent: bool, s: seq<Byte>): Option<(MqttString, seq<Byte>)> {
    if sent then TakeString(s) else Some(([], s))
  }

  /** The payload fields of section 3.1.3 in their order: client id, will topic, will message, user name, password. */
  function ParsePayload(a: ConnectArgs, s: seq<Byte>): Option<ConnectArgs> {
    var id := TakeString(s);
    if id == None then None
    else
      var topic := TakeOptional(a.willFlag, id.value.1);
      if topic == None then None
      else
        var message := TakeOptional(a.willFlag, topic.value.1);
        if message == None then None
        else
          var user := TakeOptional(a.usernameFlag, message.value.1);
          if user == None then None
          else
            var password := TakeOptional(a.passwordFlag, user.value.1);
            if password == None || password.value.1 != [] then None
            else Some(a.(clientId := id.value.0, willTopic := topic.value.0, willMessage := message.value.0,
                         username := user.value.0, password := password.value.0))
  }

  /** The flags of section 3.1.2.3, with its rules: reserved bit clear, no will options without a will, no password without a user name. */
  function ParseFlags(version: Byte, f: Byte, keepAlive: PacketId): Option<ConnectArgs> {
    var a := ConnectArgs(version, keepAlive, GetBit(f, 1), GetBit(f, 6), GetBit(f, 7), GetBit(f, 2), Get2Bit(f, 3), GetBit(f, 5),
                         [], [], [], [], []);
    if GetBit(f, 0) || (!a.willFlag && (a.willQos != 0 || a.willRetain)) || a.willQos == 3 || (a.passwordFlag && !a.usernameFlag)
    then None else Some(a)
  }

  /** Name, level, flags and keep-alive of section 3.1.2, or of the MQIsdp variant, and then the payload. */
  function ParseBody(s: seq<Byte>): Option<ConnectArgs> {
    var name := TakeString(s);
    if name == None || |name.value.1| < 4 then None
    else
      var t := name.value.1;
      if !((name.value.0 == NAME_VER4 && t[0] == 4) || (name.value.0 == NAME_VER3 && t[0] == 3)) then None
      else
        var a := ParseFlags(t[0], t[1], ShortAt(t[2..]));
        if a == None then None else ParsePayload(a.value, t[4..])
  }

  function ParseConnect(s: seq<Byte>): Option<ConnectArgs> {
    if s == [] || s[0] != 0x10 || !Terminated(s[1..]) then None
    else
      var n := FieldSize(s[1..]);
      var tail := s[1..][n..];
      if Spelled(s[1..][..n]) != |tail| then None else ParseBody(tail)
  }

  /** What a CONNECT carries: keep-alive as 0, two bits of the will QoS, and no strings whose flag is off. */
  function Carried(a: ConnectArgs): ConnectArgs {
    a.(version := if a.version == 4 then 4 else 3, keepAlive := 0, willQos := a.willQos & 3,
       willTopic := if a.willFlag then a.willTopic else [], willMessage := if a.willFlag then a.willMessage else [],
       username := if a.usernameFlag then a.username else [], password := if a.passwordFlag then a.password else [])
  }

  lemma TakesString(x: MqttString, rest: seq<Byte>)
    ensures TakeString(StringBytes(x) + rest) == Some((x, rest))
  {
    ShortRoundTrip(|x|, x + rest);
    hide ShortAt;
    hide ShortBytes;
    assert StringBytes(x) + rest == ShortBytes(|x|) + (x + rest);
    var s := StringBytes(x) + rest;
    assert s[2..2 + |x|] == x && s[2 + |x|..] == rest;
  }

  lemma TakesOptional(sent: bool, x: MqttString, rest: seq<Byte>)
    ensures TakeOptional(sent, Optional(sent, x) + rest) == Some((if sent then x else [], rest))
  {
    if sent {
      TakesString(x, rest);
    } else {
      assert Optional(sent, x) + rest == rest;
    }
  }

  lemma PayloadRoundTrip(a: ConnectArgs, flags: ConnectArgs)
    requires flags == Stripped(a)
    ensures ParsePayload(flags, Payload(a)) == Some(Carried(a))
  {
    hide TakeString;
    hide StringBytes;
    hide Optional;
    var password := Optional(a.passwordFlag, a.password) + [];
    var login := Optional(a.usernameFlag, a.username) + password;
    var message := Optional(a.willFlag, a.willMessage) + login;
    var will := Optional(a.willFlag, a.willTopic) + message;
    assert Payload(a) == StringBytes(a.clientId) + will;
    TakesString(a.clientId, will);
    TakesOptional(a.willFlag, a.willTopic, message);
    TakesOptional(a.willFlag, a.willMessage, login);
    TakesOptional(a.usernameFlag, a.username, password);
    TakesOptional(a.passwordFlag, a.password, []);
  }

  lemma FlagsRoundTrip(a: ConnectArgs)
    requires a == Normalised(a)
    ensures var f := ConnectFlags(a);
      && !GetBit(f, 0) && GetBit(f, 1) == a.cleanSession && GetBit(f, 2) == a.willFlag && Get2Bit(f, 3) == a.willQos & 3
      && GetBit(f, 5) == a.willRetain && GetBit(f, 6) == a.usernameFlag && GetBit(f, 7) == a.passwordFlag
  {
  }

  /** The flags byte of section 3.1.2.3. */
  lemma FlagsLayout(a: ConnectArgs)
    requires a.willQos <= 3
    ensures ConnectFlags(a) == (if a.cleanSession then 2 else 0) + (if a.willFlag then 4 else 0) + 8 * a.willQos
      + (if a.willRetain then 32 else 0) + (if a.passwordFlag then 128 else 0) + if a.usernameFlag then 64 else 0
  {
  }

  lemma {:induction false} SpelledLength(x: nat)
    ensures Spelled(LengthBytes(x)) == x
  {
    FieldUnfolds(x);
    if x >= 128 {
      SpelledLength(x / 128);
    }
  }

  /**
   For every version and combination of flags, a server that reads by section 3.1 recovers the
   normalised arguments, except that keep-alive arrives as 0 and unsent strings as empty.  It refuses
   the frame exactly when the will QoS that is sent is 3.
   */
  lemma ConnectRoundTrip(given: ConnectArgs)
    ensures ParseConnect(ConnectBytes(Normalised(given)))
      == if given.willFlag && given.willQos & 3 == 3 then None else Some(Carried(Normalised(given)))
    ensures given.willQos <= 2 ==> Carried(Normalised(given)).willQos == Normalised(given).willQos
  {
    hide Preamble;
    hide Payload;
    hide LengthBytes;
    hide ParseBody;
    var a := Normalised(given);
    var s, size, body := ConnectBytes(a), ConnectSize(a), Preamble(a) + Payload(a);
    assert s[1..] == LengthBytes(size) + body;
    LengthFieldEnds(size, body);
    SpelledLength(size);
    DeclaredLengthIsExact(a);
    assert s[1..][..|LengthBytes(size)|] == LengthBytes(size) && s[1..][|LengthBytes(size)|..] == body;
    BodyRoundTrip(a);
  }

  /** The arguments before the payload strings are known. */
  function Stripped(a: ConnectArgs): ConnectArgs {
    Carried(a).(clientId := [], willTopic := [], willMessage := [], username := [], password := [])
  }

  lemma FlagsParse(a: ConnectArgs)
    requires a == Normalised(a)
    ensures ParseFlags(if a.version == 4 then 4 else 3, ConnectFlags(a), 0)
      == if a.willQos & 3 == 3 then None else Some(Stripped(a))
  {
    FlagsRoundTrip(a);
    hide ConnectFlags;
    hide GetBit;
    hide Get2Bit;
  }

  lemma PreambleShape(a: ConnectArgs, rest: seq<Byte>)
    ensures var t := [if a.version == 4 then 4 else 3, ConnectFlags(a)] + ShortBytes(0) + rest;
      && Preamble(a) + rest == StringBytes(if a.version == 4 then NAME_VER4 else NAME_VER3) + t
      && t[2..] == ShortBytes(0) + rest && t[4..] == rest
  {
    hide ConnectFlags;
    hide ShortBytes;
    hide StringBytes;
  }

  lemma BodyRoundTrip(a: ConnectArgs)
    requires a == Normalised(a)
    ensures ParseBody(Preamble(a) + Payload(a)) == if a.willQos & 3 == 3 then None else Some(Carried(a))
  {
    hide ConnectFlags;
    hide ShortAt;
    hide ShortBytes;
    hide StringBytes;
    hide TakeString;
    hide Preamble;
    hide Payload;
    hide ParsePayload;
    hide ParseFlags;
    var t := [if a.version == 4 then 4 else 3, ConnectFlags(a)] + ShortBytes(0) + Payload(a);
    PreambleShape(a, Payload(a));
    TakesString(if a.version == 4 then NAME_VER4 else NAME_VER3, t);
    ShortRoundTrip(0, Payload(a));
    FlagsParse(a);
    PayloadRoundTrip(a, Stripped(a));
  }

  // ---------- In terms of what the application gave ----------

  /** What a server is to learn from the CONNECT for `given`: all but keep-alive; no password without a user name, no will options without a will. */
  predicate Conveys(got: ConnectArgs, given: ConnectArgs) {
    && got.version == (if given.version == 4 then 4 else 3) && got.keepAlive == 0
    && got.cleanSession == given.cleanSession && got.clientId == given.clientId
    && got.willFlag == given.willFlag && got.willRetain == (given.willFlag && given.willRetain)
    && got.willQos == (if given.willFlag then given.willQos else 0)
    && got.usernameFlag == given.usernameFlag && got.passwordFlag == (given.usernameFlag && given.passwordFlag)
    && got.willTopic == (if given.willFlag then given.willTopic else [])
    && got.willMessage == (if given.willFlag then given.willMessage else [])
    && got.username == (if given.usernameFlag then given.username else [])
    && got.password == (if given.usernameFlag && given.passwordFlag then given.password else [])
  }

  lemma NormalisedConveys(given: ConnectArgs)
    requires given.willFlag ==> given.willQos <= 2
    ensures Conveys(Carried(Normalised(given)), given)
  {
    assert given.willQos <= 2 ==> given.willQos & 3 == given.willQos;
  }

  /** The bytes before the payload: protocol name and level, flags, and a keep-alive of 0. */
  lemma PreambleLayout(a: ConnectArgs)
    ensures a.version == 4 ==> Preamble(a) == [0, 4, 0x4D, 0x51, 0x54, 0x54, 4, ConnectFlags(a), 0, 0]
    ensures a.version != 4 ==> Preamble(a) == [0, 6, 0x4D, 0x51, 0x49, 0x73, 0x64, 0x70, 3, ConnectFlags(a), 0, 0]
  {
    hide ConnectFlags;
  }

  /** The payload of section 3.1.3: client id, will topic, will message, user name, password, as far as they are sent. */
  lemma PayloadLayout(a: ConnectArgs)
    ensures Payload(a) == StringBytes(a.clientId)
      + (if a.willFlag then StringBytes(a.willTopic) + StringBytes(a.willMessage) else [])
      + (if a.usernameFlag then StringBytes(a.username) else [])
      + (if a.passwordFlag then StringBytes(a.password) else [])
  {
    hide StringBytes;
  }
}
