/** Laws of the frame receiver: truncation is detected, sizes are exact, and a byte stream splits at its frames. */
module FrameLaws {
  import opened MqttTypes
  import opened Bytes
  import opened Buffer
  import opened PublishFrame
  import opened Receive
  import opened ManagerSpec
  import opened Options
  import Delivery

  // ---------- Truncation ----------

  /** `field` lies at `i` in `s`, as far as the first `known` bytes of `s` go. */
  ghost predicate FieldPrefix(s: seq<Byte>, i: nat, known: nat, field: seq<Byte>) {
    known <= |s| && forall k :: 0 <= k < |field| && k < known - i ==> s[i + k] == field[k]
  }

  lemma FieldPrefixNext(s: seq<Byte>, i: nat, known: nat, field: seq<Byte>)
    requires FieldPrefix(s, i, known, field) && i < known && field != []
    ensures i < |s| && s[i] == field[0] && FieldPrefix(s, i + 1, known, field[1..])
  {
    var first, rest := field[0], field[1..];
    forall k | 0 <= k < |rest| && k < known - (i + 1) ensures s[i + 1 + k] == rest[k] {
      assert rest[k] == field[k + 1];
    }
  }

  /** All that the first `m` bytes of a length field say is that more follow: each is a zero digit. */
  ghost predicate SaysOnlyMore(field: seq<Byte>, m: nat) {
    m < |field| && forall k :: 0 <= k < m ==> field[k] == 0x80
  }

  lemma SaysOnlyMoreNext(field: seq<Byte>, m: nat)
    requires field != [] && 0 < m
    ensures SaysOnlyMore(field, m) <==> field[0] == 0x80 && SaysOnlyMore(field[1..], m - 1)
  {
    var rest := field[1..];
    if field[0] == 0x80 && SaysOnlyMore(rest, m - 1) {
      forall k | 0 <= k < m ensures field[k] == 0x80 {
        assert k > 0 ==> field[k] == rest[k - 1];
      }
    }
  }

  lemma ZeroDigit(x: nat)
    ensures LengthOctet(x) == 0x80 <==> x >= 128 && x % 128 == 0
  {
    LengthByte(x);
    var b := LengthOctet(x);
    assert b == 0x80 <==> b & 0x80 != 0 && b & 0x7F == 0;
  }

  lemma NothingAddedIffZero(remaining: nat, low: nat, multiplier: nat)
    requires multiplier >= 1
    ensures remaining + low * multiplier == 0 <==> remaining == 0 && low == 0
  {
  }

  lemma ScanStep(s: seq<Byte>, len: nat, i: nat, remaining: nat, multiplier: nat, next: nat)
    requires i < |s| && i + 1 <= 4 && next == remaining + Digit(s[i]) * multiplier < UINT32
    ensures Scan(s, len, i, remaining, multiplier)
      == if len < next + (i + 2) then Truncated
         else if !More(s[i]) then Covered
         else Scan(s, len, i + 1, next, multiplier * 128 % UINT32)
  {
    hide Digit;
    hide More;
    FitsIn32(next);
  }

  /** The byte behind the told ones never lets the walk go on. */
  lemma ScanAtEnd(s: seq<Byte>, i: nat, remaining: nat, multiplier: nat)
    requires i + 1 <= 4
    ensures Scan(s, i + 1, i, remaining, multiplier) == if i < |s| then Truncated else RanOff
  {
    hide Digit;
    hide More;
  }

  /** At byte `i` of the field for `x`, the told bytes are all there are, and they leave the walk with the length zero so far. */
  ghost predicate Leaves(s: seq<Byte>, len: nat, i: nat, remaining: nat, x: nat)
    requires i + 1 <= len
  {
    len == |s| + 1 && SaysOnlyMore(LengthBytes(x), len - 1 - i) && (i + 1 < len ==> remaining == 0)
  }

  lemma LeavesNext(s: seq<Byte>, len: nat, i: nat, remaining: nat, multiplier: nat, x: nat, next: nat)
    requires multiplier >= 1 && i + 1 < len && next == remaining + x % 128 * multiplier
    ensures Leaves(s, len, i, remaining, x) <==> x >= 128 && len >= next + (i + 2) && Leaves(s, len, i + 1, next, x / 128)
  {
    FieldUnfolds(x);
    ZeroDigit(x);
    SaysOnlyMoreNext(LengthBytes(x), len - 1 - i);
    NothingAddedIffZero(remaining, x % 128, multiplier);
    hide LengthBytes;
    hide LengthOctet;
    hide SaysOnlyMore;
  }

  /**
   Told `len` bytes of a frame whose length field spells `total`, the walk gives up exactly when
   they are too few.  It never looks beyond the first byte it was not told about, and it needs that
   one exactly when the length so far is zero and not yet complete.
   */
  lemma {:induction false} ScanDecides(s: seq<Byte>, len: nat, i: nat, remaining: nat, multiplier: nat, x: nat, total: nat)
    requires 1 <= multiplier && remaining + x * multiplier == total < UINT32
    requires i + |LengthBytes(x)| <= 4 && i + 1 <= len
    requires FieldPrefix(s, i, len - 1, LengthBytes(x))
    decreases x
    ensures Scan(s, len, i, remaining, multiplier)
      == if len >= 1 + (i + |LengthBytes(x)|) + total then Covered
         else if Leaves(s, len, i, remaining, x) then RanOff
         else Truncated
  {
    hide LengthOctet;
    hide Digit;
    hide More;
    hide Scan;
    FieldUnfolds(x);
    if i + 1 < len {
      hide LengthBytes;
      FieldPrefixNext(s, i, len - 1, LengthBytes(x));
      hide FieldPrefix;
      LengthByte(x);
      var low, high, scaled, next := SplitProduct(x, remaining, multiplier);
      LeavesNext(s, len, i, remaining, multiplier, x, next);
      hide Leaves;
      ScanStep(s, len, i, remaining, multiplier, next);
      if high > 0 && !(len < next + (i + 2)) {
        ScanDecides(s, len, i + 1, next, scaled, high, total);
      }
    } else {
      ScanAtEnd(s, i, remaining, multiplier);
    }
  }

  // ---------- The walk over any field ----------

  function Pow128(i: nat): (p: nat)
    ensures p >= 1
  {
    if i == 0 then 1 else 128 * Pow128(i - 1)
  }

  lemma SpelledUnfolds(s: seq<Byte>, i: nat)
    requires 0 < i <= |s|
    ensures Spelled(s[..i]) == Digit(s[0]) + 128 * Spelled(s[1..][..i - 1])
  {
    hide Digit;
    assert s[..i][1..] == s[1..][..i - 1];
  }

  lemma Regrouped(first: nat, spelled: nat, d: nat, p: nat)
    ensures first + 128 * (spelled + d * p) == (first + 128 * spelled) + d * (128 * p)
  {
  }

  lemma {:induction false} SpelledNext(s: seq<Byte>, i: nat)
    requires i < |s|
    ensures Spelled(s[..i + 1]) == Spelled(s[..i]) + Digit(s[i]) * Pow128(i)
    ensures Spelled(s[..i]) < Pow128(i)
  {
    SpelledUnfolds(s, i + 1);
    hide Digit;
    if i > 0 {
      SpelledUnfolds(s, i);
      SpelledNext(s[1..], i - 1);
      hide Spelled;
      Regrouped(Digit(s[0]), Spelled(s[1..][..i - 1]), Digit(s[i]), Pow128(i - 1));
    }
  }

  /** The told bytes are fewer than the frame would be if its length ended with field byte `k`. */
  predicate TooShort(s: seq<Byte>, len: nat, k: nat)
    requires k < |s|
  {
    len < Spelled(s[..k + 1]) + (k + 2)
  }

  /** The bytes that may belong to the field: up to the first one that ends it, or all. */
  predicate InField(s: seq<Byte>, k: nat) {
    k < |s| && forall j :: 0 <= j < k ==> More(s[j])
  }

  lemma SmallPowers(i: nat)
    requires i < 4
    ensures Pow128(i) * 128 % UINT32 == Pow128(i + 1) <= 268435456
  {
    assert Pow128(1) == 128 && Pow128(2) == 16384 && Pow128(3) == 2097152 && Pow128(4) == 268435456;
  }

  lemma DigitFits(spelled: nat, d: nat, p: nat)
    requires spelled < p && d < 128
    ensures spelled + d * p < 128 * p
  {
  }

  lemma ScanPasses(s: seq<Byte>, len: nat, i: nat, remaining: nat, multiplier: nat)
    requires i < |s|
    ensures Scan(s, len, i, remaining, multiplier)
      == var r := (remaining + Digit(s[i]) * multiplier) % UINT32;
         if i + 1 <= 4 && len < r + (i + 2) then Truncated
         else if !More(s[i]) then Covered
         else Scan(s, len, i + 1, r, multiplier * 128 % UINT32)
  {
  }

  lemma {:induction false} ScanFrom(s: seq<Byte>, len: nat, i: nat, remaining: nat, multiplier: nat)
    requires i <= |s| && (forall j :: 0 <= j < i ==> More(s[j]))
    requires i <= 4 ==> remaining == Spelled(s[..i]) && multiplier == Pow128(i)
    ensures Scan(s, len, i, remaining, multiplier)
      == if exists k :: i <= k < 4 && InField(s, k) && TooShort(s, len, k) then Truncated
         else if Terminated(s) then Covered
         else RanOff
    decreases |s| - i
  {
    hide Digit;
    hide More;
    hide TooShort;
    if i < |s| {
      ScanPasses(s, len, i, remaining, multiplier);
      hide Scan;
      var next := (remaining + Digit(s[i]) * multiplier) % UINT32;
      assert InField(s, i);
      if i < 4 {
        SpelledNext(s, i);
        DigitFits(Spelled(s[..i]), Digit(s[i]), Pow128(i));
        SmallPowers(i);
        FitsIn32(remaining + Digit(s[i]) * multiplier);
        ShortHere(s, len, i);
      }
      if More(s[i]) {
        ScanFrom(s, len, i + 1, next, multiplier * 128 % UINT32);
      }
    }
  }

  lemma ShortHere(s: seq<Byte>, len: nat, i: nat)
    requires i < |s|
    ensures TooShort(s, len, i) <==> len < Spelled(s[..i + 1]) + (i + 2)
  {
  }

  /**
   Over any bytes at all, the walk gives up exactly when one of the first four field bytes already
   makes the frame longer than what was told; a longer field is never checked again.
   */
  lemma ScanOfAnyField(s: seq<Byte>, len: nat)
    ensures Scan(s, len, 0, 0, 1)
      == if exists k :: 0 <= k < 4 && InField(s, k) && TooShort(s, len, k) then Truncated
         else if Terminated(s) then Covered
         else RanOff
  {
    assert s[..0] == [];
    hide Scan;
    ScanFrom(s, len, 0, 0, 1);
  }

  lemma PublishIsRecognised(a: PublishArgs, s: seq<Byte>)
    requires a.qos <= 3 && s != [] && s[0] == PublishHeader(a)
    ensures CodeAt(s) == PUBLISH_CODE
  {
    HeaderRoundTrip(a);
  }

  lemma ScanPublish(a: PublishArgs, s: seq<Byte>, len: nat)
    requires PublishSize(a) <= 268435455 && 1 <= len <= |s|
    requires var whole := PublishBytes(a);
      if len < |whole| then s[..len] == whole[..len] else s[..|whole|] == whole
    ensures Scan(s[1..], len, 0, 0, 1)
      == if len >= |PublishBytes(a)| then Covered
         else if len == |s| && SaysOnlyMore(LengthBytes(PublishSize(a)), len - 1) then RanOff
         else Truncated
  {
    var whole, size := PublishBytes(a), PublishSize(a);
    DeclaredLengthIsExact(a);
    LadderIsLengthSize(size);
    hide LengthBytes;
    hide PublishHeader;
    hide PublishBody;
    hide SaysOnlyMore;
    var field, t := LengthBytes(size), s[1..];
    forall k | 0 <= k < |field| && k < len - 1 ensures t[0 + k] == field[k] {
      assert whole[k + 1] == field[k];
      assert s[k + 1] == if len < |whole| then s[..len][k + 1] else s[..|whole|][k + 1];
    }
    ScanDecides(t, len, 0, 0, 1, size, size);
  }

  /**
   Told any proper part of an encoded PUBLISH, the receiver refuses it, whatever lies beyond that
   part.  If nothing lies beyond it, the walk stays inside it exactly when the length field is in it
   or has a nonzero digit in it.
   */
  lemma TruncationIsDetected(a: PublishArgs, s: seq<Byte>, n: nat, was: PacketId)
    requires a.qos <= 3 && |PublishBytes(a)| < 0x1_0000
    requires 1 <= n < |PublishBytes(a)| && n <= |s| && s[..n] == PublishBytes(a)[..n]
    ensures Readable(s, n) <==> n < |s| || !SaysOnlyMore(LengthBytes(PublishSize(a)), n - 1)
    ensures Readable(s, n) ==> Receipt(s, n, was) == None
  {
    DeclaredLengthIsExact(a);
    hide SaysOnlyMore;
    ScanPublish(a, s, n);
    assert s[0] == s[..n][0] == PublishBytes(a)[0];
    PublishIsRecognised(a, s);
  }

  /**
   The walk reads the byte behind the told ones exactly when these end inside the length field and
   that field has said nothing but "more": as for one byte, or for two at a remaining length of 128.
   */
  lemma WalkLeavesToldBytes(a: PublishArgs, n: nat)
    requires PublishSize(a) <= 268435455 && 1 <= n < |PublishBytes(a)|
    ensures Scan(PublishBytes(a)[..n][1..], n, 0, 0, 1) == RanOff <==> SaysOnlyMore(LengthBytes(PublishSize(a)), n - 1)
    ensures n == 1 || (n == 2 && PublishSize(a) == 128) ==> Scan(PublishBytes(a)[..n][1..], n, 0, 0, 1) == RanOff
  {
    ScanPublish(a, PublishBytes(a)[..n], n);
    hide PublishBytes;
    hide Scan;
    FieldUnfolds(128);
    ZeroDigit(128);
    hide LengthBytes;
  }

  lemma ReceiptOfPublish(s: seq<Byte>, len: nat, was: PacketId, a: PublishArgs)
    requires 1 <= len <= |s| && len < 0x1_0000 && CodeAt(s) == PUBLISH_CODE
    requires Scan(s[1..], len, 0, 0, 1) == Covered && WellFormed(s) && PublishAt(s, was) == a
    ensures Readable(s, len)
    ensures Receipt(s, len, was) == Some((PublishIn(a), ReportedSize(a)))
  {
    hide CodeAt;
    hide Scan;
    hide WellFormed;
    hide PublishAt;
    hide ReportedSize;
  }

  lemma ReportedSizeIsExact(a: PublishArgs, was: PacketId)
    requires |PublishBytes(a)| < 0x1_0000
    ensures ReportedSize(PublishFrame.Received(a, was)) == |PublishBytes(a)|
  {
    DeclaredLengthIsExact(a);
    LadderIsLengthSize(PublishSize(a));
    FitsIn32(PublishSize(a));
    hide LengthBytes;
    hide PublishBytes;
    hide Ladder;
  }

  /** Told at least the whole PUBLISH, the receiver passes it on and reports its exact encoded length. */
  lemma WholePublishPasses(a: PublishArgs, rest: seq<Byte>, len: nat, was: PacketId)
    requires a.qos <= 3 && |PublishBytes(a)| <= len <= |PublishBytes(a) + rest| && len < 0x1_0000
    ensures Readable(PublishBytes(a) + rest, len)
    ensures Receipt(PublishBytes(a) + rest, len, was) == Some((PublishIn(PublishFrame.Received(a, was)), |PublishBytes(a)|))
  {
    var s := PublishBytes(a) + rest;
    DeclaredLengthIsExact(a);
    assert PublishSize(a) < 0x1_0000 < UINT32;
    hide *;
    PublishStarts(a, rest);
    PublishIsRecognised(a, s);
    ScanPublish(a, s, len);
    PublishRoundTrip(a, rest, was);
    ReportedSizeIsExact(a, was);
    ReceiptOfPublish(s, len, was, PublishFrame.Received(a, was));
  }

  lemma PublishStarts(a: PublishArgs, rest: seq<Byte>)
    ensures var s := PublishBytes(a) + rest; s[0] == PublishHeader(a) && s[..|PublishBytes(a)|] == PublishBytes(a)
  {
    hide PublishHeader;
    hide PublishBody;
    hide LengthBytes;
  }

  // ---------- Frame boundaries ----------

  function FirstByte(code: Byte, flags: Byte): Byte {
    (code << 4) | flags
  }

  /** A well-formed frame from the broker, with whatever its reserved bits hold; SUBACK carries one return code. */
  datatype WireFrame =
    | AckFrame(code: Byte, flags: Byte, id: PacketId)
    | SubackFrame(flags: Byte, id: PacketId, returnCode: Byte)
    | ConnackFrame(flags: Byte, ackFlags: Byte, returnCode: Byte)
    | MessageFrame(publish: PublishArgs)
    | PingrespFrame(flags: Byte)
  {
    predicate Valid() {
      if MessageFrame? then publish.qos <= 3
      else flags < 16 && (AckFrame? ==> code in {4, 5, 6, 7, 11})
    }

    function Encode(): seq<Byte> {
      match this
      case AckFrame(code, flags, id) => [FirstByte(code, flags), 2] + ShortBytes(id)
      case SubackFrame(flags, id, returnCode) => [FirstByte(9, flags), 3] + ShortBytes(id) + [returnCode]
      case ConnackFrame(flags, ackFlags, returnCode) => [FirstByte(2, flags), 2, ackFlags, returnCode]
      case MessageFrame(a) => PublishBytes(a)
      case PingrespFrame(flags) => [FirstByte(13, flags), 0]
    }

    /** What the reader takes it for: session-present is read from bit 1. */
    function Meaning(was: PacketId): Incoming
      requires Valid()
    {
      match this
      case AckFrame(code, _, id) =>
        if code == 4 then PubackIn(id)
        else if code == 5 then PubrecIn(id)
        else if code == 6 then PubrelIn(id)
        else if code == 7 then PubcompIn(id)
        else UnsubackIn(id)
      case SubackFrame(_, id, returnCode) => SubackIn(id, returnCode)
      case ConnackFrame(_, ackFlags, returnCode) => ConnackIn(ackFlags & 2 != 0, returnCode)
      case MessageFrame(a) => PublishIn(PublishFrame.Received(a, was))
      case PingrespFrame(_) => PingrespIn
    }
  }

  lemma CodeIsRead(code: Byte, flags: Byte, s: seq<Byte>)
    requires code < 16 && flags < 16 && s != [] && s[0] == FirstByte(code, flags)
    ensures CodeAt(s) == code
  {
    assert (((code << 4) | flags) & 0xF0) >> 4 == code;
  }

  lemma AckSizeIsExact(code: Byte, flags: Byte, id: PacketId, rest: seq<Byte>, len: nat, was: PacketId)
    requires code in {4, 5, 6, 7, 11} && flags < 16 && 4 <= len <= 4 + |rest| && len < 0x1_0000
    ensures var s := AckFrame(code, flags, id).Encode() + rest;
      Readable(s, len) && Receipt(s, len, was) == Some((AckIn(code, id), 4))
  {
    hide ShortBytes;
    hide ShortAt;
    var s := AckFrame(code, flags, id).Encode() + rest;
    CodeIsRead(code, flags, s);
    hide FirstByte;
    hide CodeAt;
    assert s[2..] == ShortBytes(id) + rest;
    ShortRoundTrip(id, rest);
  }

  lemma SubackSizeIsExact(w: WireFrame, rest: seq<Byte>, len: nat, was: PacketId)
    requires w.SubackFrame? && w.Valid() && 5 <= len <= 5 + |rest| && len < 0x1_0000
    ensures var s := w.Encode() + rest; Readable(s, len) && Receipt(s, len, was) == Some((w.Meaning(was), 5))
  {
    hide ShortBytes;
    hide ShortAt;
    var s := w.Encode() + rest;
    CodeIsRead(9, w.flags, s);
    hide FirstByte;
    hide CodeAt;
    assert s[2..] == ShortBytes(w.id) + ([w.returnCode] + rest);
    ShortRoundTrip(w.id, [w.returnCode] + rest);
  }

  /** Every frame is taken for what it is, and the reported size is its exact encoded length. */
  lemma SizeIsExact(w: WireFrame, rest: seq<Byte>, len: nat, was: PacketId)
    requires w.Valid() && |w.Encode()| <= len <= |w.Encode() + rest| && len < 0x1_0000
    ensures Readable(w.Encode() + rest, len)
    ensures Receipt(w.Encode() + rest, len, was) == Some((w.Meaning(was), |w.Encode()|))
  {
    match w
    case MessageFrame(a) => WholePublishPasses(a, rest, len, was);
    case AckFrame(code, flags, id) => AckSizeIsExact(code, flags, id, rest, len, was);
    case SubackFrame(_, _, _) => SubackSizeIsExact(w, rest, len, was);
    case ConnackFrame(flags, _, _) => CodeIsRead(2, flags, w.Encode() + rest);
    case PingrespFrame(flags) => CodeIsRead(13, flags, w.Encode() + rest);
  }

  function Concatenated(ws: seq<WireFrame>): seq<Byte> {
    if ws == [] then [] else ws[0].Encode() + Concatenated(ws[1..])
  }

  function Meanings(ws: seq<WireFrame>, was: PacketId): seq<Incoming>
    requires forall w :: w in ws ==> w.Valid()
  {
    if ws == [] then [] else [ws[0].Meaning(was)] + Meanings(ws[1..], was)
  }

  /** Receiving frame after frame, advancing by the reported size each time, until an error or the end. */
  function Drained(s: seq<Byte>, was: PacketId): seq<Incoming> {
    if !Readable(s, |s|) then []
    else
      var got := Receipt(s, |s|, was);
      if got == None || !(0 < got.value.1 <= |s|) then []
      else [got.value.0] + Drained(s[got.value.1..], was)
  }

  /** Over any concatenation of frames, advancing by the reported size visits exactly the frames, in order. */
  lemma {:induction false} StreamSplitsAtFrames(ws: seq<WireFrame>, was: PacketId)
    requires (forall w :: w in ws ==> w.Valid()) && |Concatenated(ws)| < 0x1_0000
    ensures Drained(Concatenated(ws), was) == Meanings(ws, was)
  {
    if ws != [] {
      var first, rest := ws[0].Encode(), Concatenated(ws[1..]);
      SizeIsExact(ws[0], rest, |first + rest|, was);
      assert |first| > 0;
      assert (first + rest)[|first|..] == rest;
      StreamSplitsAtFrames(ws[1..], was);
    }
  }

  // ---------- What one client writes, another receives ----------

  lemma AckHeader(was: Byte, code: Byte)
    requires code < 16
    ensures Set4Bit(Set4Bit(was, 2, 0), code, 4) == FirstByte(code, 2)
  {
  }

  method PutFirstByte(buf: Buffer, code: Byte)
    requires code < 16 && buf.Fits(1)
    modifies buf`pos, buf.data
    ensures buf.data[..] == Spliced(old(buf.data[..]), old(buf.pos), [FirstByte(code, 2)]) && buf.pos == old(buf.pos) + 1
  {
    AckHeader(buf.data[buf.pos], code);
    SplicedOctet(buf.data[..], buf.pos, FirstByte(code, 2));
    hide Set4Bit;
    buf.Put4Bit(2, 0, false);
    buf.Put4Bit(code, 4, true);
  }

  /** The acknowledgement writers put 2 in the reserved nibble of every kind. */
  method PutAck(buf: Buffer, code: Byte, id: PacketId)
    requires code in {4, 5, 6, 7} && buf.Fits(4)
    modifies buf`pos, buf.data
    ensures buf.data[..] == Spliced(old(buf.data[..]), old(buf.pos), AckFrame(code, 2, id).Encode())
    ensures buf.pos == old(buf.pos) + 4
  {
    hide Spliced;
    ghost var first := FirstByte(code, 2);
    hide FirstByte;
    hide ShortBytes;
    PutFirstByte(buf, code);
    SplicedTwice(old(buf.data[..]), old(buf.pos), [first], [2]);
    buf.PutOctet(2);
    SplicedTwice(old(buf.data[..]), old(buf.pos), [first, 2], ShortBytes(id));
    assert [first] + [2] == [first, 2];
    buf.PutShort(id);
  }

  /** The bytes of the packets that two clients exchange. */
  function WireBytes(p: Packet): seq<Byte> {
    match p
    case Publish(a) => PublishBytes(a)
    case Puback(id) => AckFrame(4, 2, id).Encode()
    case Pubrec(id) => AckFrame(5, 2, id).Encode()
    case Pubrel(id) => AckFrame(6, 2, id).Encode()
    case Pubcomp(id) => AckFrame(7, 2, id).Encode()
    case _ => []
  }

  /** The manager event that the backend raises for a received frame; CONNACK goes straight to the callback. */
  function EventOf(got: Incoming): Option<Event> {
    match got
    case ConnackIn(_, _) => None
    case PublishIn(a) => Some(RecvPublish(a))
    case PubackIn(id) => Some(RecvPuback(id))
    case PubrecIn(id) => Some(RecvPubrec(id))
    case PubrelIn(id) => Some(RecvPubrel(id))
    case PubcompIn(id) => Some(RecvPubcomp(id))
    case SubackIn(id, _) => Some(RecvSuback(id))
    case UnsubackIn(id) => Some(RecvUnsuback(id))
    case PingrespIn => Some(RecvPingresp)
  }

  /** The channels of `Delivery` are faithful to the bytes: a packet's frame causes the very event it stands for. */
  lemma WireCarriesArrival(p: Packet, rest: seq<Byte>, was: PacketId)
    requires p.Publish? || p.Puback? || p.Pubrec? || p.Pubrel? || p.Pubcomp?
    requires |WireBytes(p) + rest| < 0x1_0000
    requires p.Publish? ==> p.publish.qos <= 3 && (p.publish.qos == AT_MOST_ONCE ==> p.publish.packetId == was)
    ensures var s := WireBytes(p) + rest;
      && Readable(s, |s|) && Receipt(s, |s|, was).Some?
      && EventOf(Receipt(s, |s|, was).value.0) == Delivery.ArrivalOf(p)
      && Receipt(s, |s|, was).value.1 == |WireBytes(p)|
  {
    hide Receipt;
    hide Readable;
    hide PublishBytes;
    hide FirstByte;
    var len := |WireBytes(p) + rest|;
    match p
    case Publish(a) => SizeIsExact(MessageFrame(a), rest, len, was);
    case Puback(id) => AckSizeIsExact(4, 2, id, rest, len, was);
    case Pubrec(id) => AckSizeIsExact(5, 2, id, rest, len, was);
    case Pubrel(id) => AckSizeIsExact(6, 2, id, rest, len, was);
    case Pubcomp(id) => AckSizeIsExact(7, 2, id, rest, len, was);
  }
}
