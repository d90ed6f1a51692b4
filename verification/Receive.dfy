/** Frame reception: mqtt_frame_recv, its truncation check, and the acknowledgement frames. */
module Receive {
  import opened MqttTypes
  import opened Bytes
  import opened Buffer
  import opened PublishFrame
  import opened Options

  /** A frame as the reader hands it to the backend. */
  datatype Incoming =
    | ConnackIn(sessionPresent: bool, returnCode: Byte)
    | PublishIn(publish: PublishArgs)
    | PubackIn(id: PacketId)
    | PubrecIn(id: PacketId)
    | PubrelIn(id: PacketId)
    | PubcompIn(id: PacketId)
    | SubackIn(id: PacketId, returnCode: Byte)
    | UnsubackIn(id: PacketId)
    | PingrespIn

  datatype Scanned = Truncated | Covered | RanOff

  /**
   The receiver's walk over the length field `s`, told that `len` bytes arrived in all.  Each of the
   first four bytes is checked against the length known so far, before the next one is read.
   */
  function Scan(s: seq<Byte>, len: nat, i: nat, remaining: nat, multiplier: nat): Scanned
    decreases |s| - i
  {
    if i >= |s| then RanOff
    else
      var r := (remaining + Digit(s[i]) * multiplier) % UINT32;
      if i + 1 <= 4 && len < r + (i + 2) then Truncated
      else if !More(s[i]) then Covered
      else Scan(s, len, i + 1, r, multiplier * 128 % UINT32)
  }

  function CodeAt(s: seq<Byte>): Byte
    requires s != []
  {
    (s[0] & 0xF0) >> 4
  }

  /** The told bytes are there, the length walk stays inside the buffer, and a PUBLISH it lets through is well formed. */
  predicate Readable(s: seq<Byte>, len: nat) {
    && 1 <= |s| && len <= |s| && len < 0x1_0000
    && (CodeAt(s) == PUBLISH_CODE ==>
          var scan := Scan(s[1..], len, 0, 0, 1); scan != RanOff && (scan == Covered ==> WellFormed(s)))
  }

  /** The size the receiver computes for a PUBLISH: remaining length in 32 bits, its length bytes, and the first byte. */
  function ReportedSize(a: PublishArgs): nat {
    var total := (|a.data| + |a.topic| + 2 + if a.qos == AT_MOST_ONCE then 0 else 2) % UINT32;
    total + Ladder(total) + 1
  }

  /** What the receiver passes on, and the size it reports; `None` is its error return. */
  function Receipt(s: seq<Byte>, len: nat, was: PacketId): Option<(Incoming, nat)>
    requires Readable(s, len)
  {
    var code := CodeAt(s);
    if code == PUBLISH_CODE then
      if Scan(s[1..], len, 0, 0, 1) == Truncated then None
      else
        var a := PublishAt(s, was);
        Some((PublishIn(a), ReportedSize(a)))
    else if code == 9 then
      if len < 5 then None else Some((SubackIn(ShortAt(s[2..]), s[4]), 5))
    else if code == 13 then
      if len < 2 then None else Some((PingrespIn, 2))
    else if code in {2, 4, 5, 6, 7, 11} then
      if len < 4 then None
      else if code == 2 then Some((ConnackIn(GetBit(s[2], 1), s[3]), 4))
      else Some((AckIn(code, ShortAt(s[2..])), 4))
    else None
  }

  function AckIn(code: Byte, id: PacketId): Incoming
    requires code in {4, 5, 6, 7, 11}
  {
    if code == 4 then PubackIn(id)
    else if code == 5 then PubrecIn(id)
    else if code == 6 then PubrelIn(id)
    else if code == 7 then PubcompIn(id)
    else UnsubackIn(id)
  }

  /** The receiver's walk over the length field: it leaves the cursor where it was unless it gives up. */
  method CheckLength(buf: Buffer, len: nat) returns (ok: bool)
    requires buf.Fits(0) && Scan(buf.Ahead(), len, 0, 0, 1) != RanOff
    modifies buf`pos
    ensures ok <==> Scan(old(buf.Ahead()), len, 0, 0, 1) == Covered
    ensures ok ==> buf.pos == old(buf.pos)
  {
    ghost var s := buf.Ahead();
    var multiplier: nat, remaining: nat, multiBytes: nat := 1, 0, 0;
    var more := true;
    while more
      invariant multiBytes <= |s| && buf.pos == old(buf.pos) + multiBytes
      invariant Scan(s, len, 0, 0, 1) == if more then Scan(s, len, multiBytes, remaining, multiplier) else Covered
      decreases more, |s| - multiBytes
    {
      var octet := buf.data[buf.pos];
      buf.pos := buf.pos + 1;
      multiBytes := multiBytes + 1;
      remaining := (remaining + (octet & 0x7F) as int * multiplier) % UINT32;
      if multiBytes <= 4 && len < remaining + (multiBytes + 1) {
        return false;
      }
      multiplier := multiplier * 128 % UINT32;
      more := octet & 0x80 != 0;
    }
    buf.pos := buf.pos - multiBytes;
    return true;
  }

  /** How a PUBLISH is decided: by the walk alone, and then by what the reader finds. */
  lemma PublishReceipt(s: seq<Byte>, len: nat, was: PacketId)
    requires Readable(s, len) && CodeAt(s) == PUBLISH_CODE
    ensures var scan := Scan(s[1..], len, 0, 0, 1);
      && scan != RanOff
      && (scan == Truncated ==> Receipt(s, len, was) == None)
      && (scan == Covered ==> WellFormed(s) && Receipt(s, len, was) == Some((PublishIn(PublishAt(s, was)), ReportedSize(PublishAt(s, was)))))
  {
    hide Scan;
    hide WellFormed;
    hide PublishAt;
    hide CodeAt;
    hide Ladder;
  }

  method ReceivePublish(buf: Buffer, frame: Buffer, len: nat, was: PacketId) returns (got: Option<Incoming>, size: nat)
    requires buf.data == frame.data && buf.pos == frame.pos && buf != frame
    requires buf.Fits(1) && Readable(buf.Ahead(), len) && CodeAt(buf.Ahead()) == PUBLISH_CODE
    modifies buf`pos, frame`pos
    ensures got == None <==> Receipt(old(buf.Ahead()), len, was) == None
    ensures got.Some? ==> Receipt(old(buf.Ahead()), len, was) == Some((got.value, size))
  {
    ghost var s := buf.Ahead();
    PublishReceipt(s, len, was);
    hide Readable;
    hide Receipt;
    hide Scan;
    hide WellFormed;
    hide PublishAt;
    hide CodeAt;
    size := 0;
    buf.pos := buf.pos + 1;
    assert buf.Ahead() == s[1..];
    var ok := CheckLength(buf, len);
    if !ok {
      return None, size;
    }
    var a := GetPublish(frame, was);
    var total := (|a.data| + |a.topic| + 2 + if a.qos == AT_MOST_ONCE then 0 else 2) % UINT32;
    size := total + (if total <= 127 then 1 else if total <= 16383 then 2 else if total <= 2097151 then 3 else 4);
    size := size + 1;
    return Some(PublishIn(a)), size;
  }

  /** Type, size and packet id: what every acknowledgement starts with. */
  method GetAck(frame: Buffer) returns (id: PacketId)
    requires frame.Fits(4)
    modifies frame`pos
    ensures id == ShortAt(old(frame.Ahead())[2..]) && frame.pos == old(frame.pos) + 4
  {
    ghost var s := frame.Ahead();
    var _ := frame.GetOctet();
    var _ := frame.GetOctet();
    assert frame.Ahead() == s[2..];
    id := frame.GetShort();
  }

  /** `size` is what the receiver reports; `buf` is its cursor and the frame readers work on a copy of it. */
  method ReceiveFrame(buf: Buffer, len: nat, was: PacketId) returns (got: Option<Incoming>, size: nat)
    requires buf.Fits(1) && Readable(buf.Ahead(), len)
    modifies buf`pos
    ensures got == None <==> Receipt(old(buf.Ahead()), len, was) == None
    ensures got.Some? ==> Receipt(old(buf.Ahead()), len, was) == Some((got.value, size))
  {
    ghost var s := buf.Ahead();
    var frame := new Buffer(buf.data, buf.pos);
    var code := (buf.data[buf.pos] & 0xF0) >> 4;
    assert code == CodeAt(s);
    if code == PUBLISH_CODE {
      got, size := ReceivePublish(buf, frame, len, was);
      return;
    }
    size := if code == 9 then 5 else if code == 13 then 2 else if code in {2, 4, 5, 6, 7, 11} then 4 else 0;
    if size == 0 || len < size {
      return None, size;
    }
    if code == 13 {
      got := Some(PingrespIn);
    } else if code == 2 {
      var _ := frame.GetOctet();
      var _ := frame.GetOctet();
      var octet := frame.GetOctet();
      var returnCode := frame.GetOctet();
      got := Some(ConnackIn(GetBit(octet, 1), returnCode));
    } else {
      var id := GetAck(frame);
      if code == 9 {
        var returnCode := frame.GetOctet();
        got := Some(SubackIn(id, returnCode));
      } else {
        got := Some(AckIn(code, id));
      }
    }
  }
}
