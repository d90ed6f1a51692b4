/** The buffer macros of mqtt_frame.c: octets, shorts, strings, bit fields and base-128 lengths at a moving cursor. */
module Bytes {
  import opened MqttTypes

  const UINT32 := 0x1_0000_0000

  // ---------- Bit fields ----------

  predicate GetBit(b: Byte, bit: Byte)
    requires bit < 8
  {
    b & (1 << bit) != 0
  }

  function Get2Bit(b: Byte, bit: Byte): Byte
    requires bit < 8
  {
    (b & (3 << bit)) >> bit
  }

  /** Every bit but this one is as before. */
  ghost predicate SameBut(before: Byte, after: Byte, bit: Byte) {
    forall other: Byte :: other < 8 && other != bit ==> (GetBit(after, other) <==> GetBit(before, other))
  }

  /** Sets one bit and no other. */
  function SetBit(b: Byte, on: bool, bit: Byte): (r: Byte)
    requires bit < 8
    ensures GetBit(r, bit) == on && SameBut(b, r, bit)
  {
    BitWrites(b, bit);
    if on then b | (1 << bit) else b & !(1 << bit)
  }

  lemma BitWrites(b: Byte, bit: Byte)
    requires bit < 8
    ensures GetBit(b | (1 << bit), bit) && SameBut(b, b | (1 << bit), bit)
    ensures !GetBit(b & !(1 << bit), bit) && SameBut(b, b & !(1 << bit), bit)
  {
    forall other: Byte | other < 8 && other != bit
      ensures GetBit(b | (1 << bit), other) <==> GetBit(b, other)
      ensures GetBit(b & !(1 << bit), other) <==> GetBit(b, other)
    {
      OtherBit(b, bit, other);
    }
  }

  lemma OtherBit(b: Byte, bit: Byte, other: Byte)
    requires bit < 8 && other < 8 && other != bit
    ensures GetBit(b | (1 << bit), other) <==> GetBit(b, other)
    ensures GetBit(b & !(1 << bit), other) <==> GetBit(b, other)
  {
  }

  /** Every bit but these two is as before. */
  ghost predicate SameButTwo(before: Byte, after: Byte, bit: Byte) {
    forall other: Byte :: other < 8 && !(bit <= other <= bit + 1) ==> (GetBit(after, other) <==> GetBit(before, other))
  }

  /** Stores the low two bits of the value and changes no other bit. */
  function Set2Bit(b: Byte, v: Byte, bit: Byte): (r: Byte)
    requires bit < 8
    ensures bit < 7 ==> Get2Bit(r, bit) == v & 3 && SameButTwo(b, r, bit)
  {
    (b & !(3 << bit)) | ((v & 3) << bit)
  }

  /** Stores the low four bits of the value; at the two nibbles it keeps the other one. */
  function Set4Bit(b: Byte, v: Byte, bit: Byte): (r: Byte)
    requires bit < 8
    ensures bit == 0 ==> r == (b & 0xF0) | (v & 0xF)
    ensures bit == 4 ==> r == (v << 4) | (b & 0xF)
  {
    (b & !(0xF << bit)) | ((v & 0xF) << bit)
  }

  // ---------- Shorts and strings ----------

  function ShortBytes(v: PacketId): (s: seq<Byte>)
    ensures |s| == 2
  {
    [(v / 256) as Byte, (v % 256) as Byte]
  }

  function ShortAt(s: seq<Byte>): PacketId
    requires |s| >= 2
  {
    s[0] as int * 256 + s[1] as int
  }

  function StringBytes(s: MqttString): (r: seq<Byte>)
    ensures |r| == 2 + |s|
  {
    ShortBytes(|s|) + s
  }

  /** The number that two bytes stand for, high byte first, as section 1.5.2 has it. */
  function BigEndian(s: seq<Byte>): int
    requires |s| == 2
  {
    s[0] as int * 256 + s[1] as int
  }

  lemma ShortIsBigEndian(v: PacketId)
    ensures BigEndian(ShortBytes(v)) == v
  {
    ByteRoundTrip(v / 256);
    ByteRoundTrip(v % 256);
  }

  lemma ByteRoundTrip(x: nat)
    requires x < 256
    ensures (x as Byte) as int == x
  {
    assert x % 256 == x;
  }

  lemma ShortRoundTrip(v: PacketId, rest: seq<Byte>)
    ensures ShortAt(ShortBytes(v) + rest) == v
  {
    ByteRoundTrip(v / 256);
    ByteRoundTrip(v % 256);
  }

  // ---------- Base-128 lengths ----------

  function LengthOctet(x: nat): Byte {
    if x < 128 then x as Byte else (x % 128) as Byte | 0x80
  }

  function LengthBytes(x: nat): (s: seq<Byte>)
    ensures |s| >= 1
  {
    [LengthOctet(x)] + if x < 128 then [] else LengthBytes(x / 128)
  }

  predicate More(b: Byte) {
    b & 0x80 != 0
  }

  function Digit(b: Byte): (d: nat)
    ensures d < 128
  {
    (b & 0x7F) as int
  }

  /** Some byte ends the length field. */
  predicate Terminated(s: seq<Byte>) {
    exists i :: 0 <= i < |s| && !More(s[i])
  }

  function FieldSize(s: seq<Byte>): (n: nat)
    requires Terminated(s)
    ensures 1 <= n <= |s| && !More(s[n - 1]) && forall i :: 0 <= i < n - 1 ==> More(s[i])
  {
    if !More(s[0]) then 1
    else
      assert Terminated(s[1..]) by {
        var i :| 0 <= i < |s| && !More(s[i]);
        assert s[1..][i - 1] == s[i];
      }
      1 + FieldSize(s[1..])
  }

  /** What the reader accumulates in 32 bits, from a running value and multiplier. */
  function Accumulated(field: seq<Byte>, value: nat, multiplier: nat): nat {
    if field == [] then value
    else Accumulated(field[1..], (value + Digit(field[0]) * multiplier) % UINT32, multiplier * 128 % UINT32)
  }

  lemma SevenBits(d: nat)
    requires d < 128
    ensures !More(d as Byte) && Digit(d as Byte) == d
    ensures More(d as Byte | 0x80) && Digit(d as Byte | 0x80) == d
  {
    assert d % 256 == d;
    var b := d as Byte;
    assert b < 0x80;
  }

  lemma LengthByte(x: nat)
    ensures (More(LengthOctet(x)) <==> x >= 128) && Digit(LengthOctet(x)) == x % 128
  {
    if x < 128 {
      SevenBits(x);
      assert x % 128 == x;
    } else {
      SevenBits(x % 128);
    }
    hide More;
    hide Digit;
  }

  /** The field the writer emits is self-delimiting: only its last byte ends it. */
  lemma {:induction false} LengthFieldEnds(x: nat, rest: seq<Byte>)
    ensures Terminated(LengthBytes(x) + rest) && FieldSize(LengthBytes(x) + rest) == |LengthBytes(x)|
  {
    var s := LengthBytes(x) + rest;
    LengthByte(x);
    FieldUnfolds(x);
    hide LengthBytes;
    hide LengthOctet;
    hide More;
    hide Digit;
    assert s[0] == LengthOctet(x);
    if x >= 128 {
      LengthFieldEnds(x / 128, rest);
      assert s[1..] == LengthBytes(x)[1..] + rest;
      var i :| 0 <= i < |s[1..]| && !More(s[1..][i]);
      assert !More(s[i + 1]);
    }
  }

  /** One digit of x * m, and the rest of it, without overflow. */
  lemma SplitProduct(x: nat, value: nat, m: nat) returns (low: nat, high: nat, scaled: nat, next: nat)
    requires 1 <= m && value + x * m < UINT32
    ensures low == x % 128 && high == x / 128 && scaled == m * 128 && next == value + low * m
    ensures next + high * scaled == value + x * m
    ensures next < UINT32 && (high > 0 ==> scaled % UINT32 == scaled)
  {
    low, high, scaled := x % 128, x / 128, m * 128;
    next := value + low * m;
    assert x * m == low * m + high * 128 * m;
    assert high * 128 * m == high * scaled;
    if high > 0 {
      assert scaled <= high * scaled;
    }
  }

  lemma FitsIn32(v: nat)
    requires v < UINT32
    ensures v % UINT32 == v
  {
  }

  lemma AccumulatesDigit(field: seq<Byte>, value: nat, multiplier: nat, next: nat)
    requires field != [] && next == value + Digit(field[0]) * multiplier < UINT32
    ensures Accumulated(field, value, multiplier) == Accumulated(field[1..], next, multiplier * 128 % UINT32)
  {
    hide Digit;
    FitsIn32(next);
  }

  lemma FieldUnfolds(x: nat)
    ensures Digit(LengthBytes(x)[0]) == x % 128
    ensures LengthBytes(x)[0] == LengthOctet(x)
    ensures LengthBytes(x)[1..] == if x < 128 then [] else LengthBytes(x / 128)
    ensures |LengthBytes(x)| == 1 + if x < 128 then 0 else |LengthBytes(x / 128)|
  {
    LengthByte(x);
  }

  lemma {:induction false} AccumulatesValue(x: nat, value: nat, multiplier: nat)
    requires 1 <= multiplier && value + x * multiplier < UINT32
    ensures Accumulated(LengthBytes(x), value, multiplier) == value + x * multiplier
  {
    hide LengthBytes;
    hide Digit;
    var low, high, scaled, next := SplitProduct(x, value, multiplier);
    FieldUnfolds(x);
    AccumulatesDigit(LengthBytes(x), value, multiplier, next);
    if high > 0 {
      AccumulatesValue(high, next, scaled);
    }
  }

  /** Writing then reading any 32-bit length gives it back, whatever follows it. */
  lemma LengthRoundTrip(x: nat, rest: seq<Byte>)
    requires x < UINT32
    ensures Terminated(LengthBytes(x) + rest) && FieldSize(LengthBytes(x) + rest) == |LengthBytes(x)|
    ensures Accumulated((LengthBytes(x) + rest)[..|LengthBytes(x)|], 0, 1) == x
  {
    LengthFieldEnds(x, rest);
    AccumulatesValue(x, 0, 1);
    assert (LengthBytes(x) + rest)[..|LengthBytes(x)|] == LengthBytes(x);
  }

  /** The length that a field spells, in unbounded arithmetic. */
  function Spelled(field: seq<Byte>): nat {
    if field == [] then 0 else Digit(field[0]) + 128 * Spelled(field[1..])
  }

  lemma ModuloDrops(x: int, k: int)
    ensures (x + UINT32 * k) % UINT32 == x % UINT32
  {
  }

  lemma ModuloOfSum(a: nat, b: nat, c: nat)
    ensures (a % UINT32 + b % UINT32 * c) % UINT32 == (a + b * c) % UINT32
  {
    var p, q := a / UINT32, b / UINT32;
    assert a == a % UINT32 + UINT32 * p && b == b % UINT32 + UINT32 * q;
    assert b * c == b % UINT32 * c + UINT32 * (q * c);
    assert a + b * c == (a % UINT32 + b % UINT32 * c) + UINT32 * (p + q * c);
    ModuloDrops(a % UINT32 + b % UINT32 * c, p + q * c);
  }

  lemma OneDigitMore(value: nat, d: nat, m: nat, rest: nat)
    ensures value + m * (d + 128 * rest) == (value + d * m) + m * 128 * rest
  {
  }

  /** The reader's 32-bit loop finds in any field at all the length it spells, modulo 2^32. */
  lemma {:induction false} AccumulatesSpelled(field: seq<Byte>, value: nat, multiplier: nat)
    requires value < UINT32
    ensures Accumulated(field, value, multiplier) == (value + multiplier * Spelled(field)) % UINT32
    decreases |field|
  {
    hide Digit;
    if field == [] {
      FitsIn32(value);
    } else {
      var d, rest := Digit(field[0]), Spelled(field[1..]);
      AccumulatesSpelled(field[1..], (value + d * multiplier) % UINT32, multiplier * 128 % UINT32);
      ModuloOfSum(value + d * multiplier, multiplier * 128, rest);
      OneDigitMore(value, d, multiplier, rest);
    }
  }

  /** No field spells the same length in fewer bytes. */
  lemma {:induction false} LengthIsMinimal(x: nat, field: seq<Byte>)
    requires field != [] && Spelled(field) == x
    ensures |LengthBytes(x)| <= |field|
  {
    if x >= 128 {
      assert Spelled(field[1..]) == x / 128;
      LengthIsMinimal(x / 128, field[1..]);
    }
  }

  /**
   The length encoding of section 2.2.3: seven bits a byte, least significant first, 128 added to
   every byte but the last.
   */
  ghost predicate IsBase128(field: seq<Byte>, x: nat)
  {
    field != [] &&
      if |field| == 1 then field[0] as int == x < 128
      else field[0] as int == 128 + x % 128 && IsBase128(field[1..], x / 128)
  }

  lemma OneByteBase128(field: seq<Byte>, x: nat)
    requires |field| == 1 && field[0] as int == x < 128
    ensures IsBase128(field, x)
  {
  }

  lemma NextBase128(field: seq<Byte>, x: nat)
    requires |field| > 1 && field[0] as int == 128 + x % 128 && IsBase128(field[1..], x / 128)
    ensures IsBase128(field, x)
  {
  }

  lemma {:induction false} LengthIsBase128(x: nat)
    ensures IsBase128(LengthBytes(x), x)
  {
    hide *;
    FieldUnfolds(x);
    OctetValue(x);
    if x < 128 {
      assert x % 128 == x;
      OneByteBase128(LengthBytes(x), x);
    } else {
      LengthIsBase128(x / 128);
      NextBase128(LengthBytes(x), x);
    }
  }

  lemma HighBitAdds(b: Byte)
    requires b < 0x80
    ensures (b | 0x80) as int == b as int + 128
  {
    assert b | 0x80 == b + 0x80;
  }

  lemma OctetValue(x: nat)
    ensures LengthOctet(x) as int == x % 128 + if x < 128 then 0 else 128
  {
    var d := x % 128;
    SevenBits(d);
    ByteRoundTrip(d);
    var b := d as Byte;
    assert b < 0x80;
    HighBitAdds(b);
    assert x < 128 ==> x == d;
    hide Digit;
    hide More;
  }

  /** The size ladder that the receiver applies to a remaining length. */
  function Ladder(x: nat): nat {
    if x <= 127 then 1 else if x <= 16383 then 2 else if x <= 2097151 then 3 else 4
  }

  /** The ladder is the number of length bytes exactly up to the largest length MQTT allows. */
  lemma LadderIsLengthSize(x: nat)
    ensures Ladder(x) == |LengthBytes(x)| <==> x <= 268435455
  {
    var a, b, c := LengthBytes(x), LengthBytes(x / 128), LengthBytes(x / 128 / 128);
    var d := LengthBytes(x / 128 / 128 / 128);
    if x >= 128 {
      assert |a| == 1 + |b|;
      if x / 128 >= 128 {
        assert |b| == 1 + |c|;
        if x / 128 / 128 >= 128 {
          assert |c| == 1 + |d|;
        }
      }
    }
  }
}
