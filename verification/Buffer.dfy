/** The buffer that frames are written to and read from, with the cursor that every macro moves. */
module Buffer {
  import opened MqttTypes
  import opened Bytes

  /** `b` with `s` written over it at `p`. */
  function Spliced(b: seq<Byte>, p: nat, s: seq<Byte>): (r: seq<Byte>)
    requires p + |s| <= |b|
    ensures |r| == |b|
  {
    b[..p] + s + b[p + |s|..]
  }

  lemma SplicedTwice(b: seq<Byte>, p: nat, s: seq<Byte>, t: seq<Byte>)
    requires p + |s| + |t| <= |b|
    ensures Spliced(Spliced(b, p, s), p + |s|, t) == Spliced(b, p, s + t)
  {
  }

  lemma SplicedNothing(b: seq<Byte>, p: nat)
    requires p <= |b|
    ensures Spliced(b, p, []) == b
  {
  }

  lemma SplicedOctet(b: seq<Byte>, p: nat, v: Byte)
    requires p < |b|
    ensures Spliced(b, p, [v]) == b[p := v]
  {
  }

  class Buffer {
    const data: array<Byte>
    var pos: nat

    constructor (data: array<Byte>, pos: nat)
      ensures this.data == data && this.pos == pos
    {
      this.data, this.pos := data, pos;
    }

    ghost predicate Fits(n: nat)
      reads this
    {
      pos + n <= data.Length
    }

    /** What lies from the cursor on. */
    ghost function Ahead(): seq<Byte>
      requires Fits(0)
      reads this, data
    {
      data[pos..]
    }

    method PutOctet(v: Byte)
      requires Fits(1)
      modifies this`pos, data
      ensures data[..] == Spliced(old(data[..]), old(pos), [v]) && pos == old(pos) + 1
    {
      data[pos] := v;
      pos := pos + 1;
    }

    method PutShort(v: PacketId)
      requires Fits(2)
      modifies this`pos, data
      ensures data[..] == Spliced(old(data[..]), old(pos), ShortBytes(v)) && pos == old(pos) + 2
    {
      data[pos], data[pos + 1] := (v / 256) as Byte, (v % 256) as Byte;
      pos := pos + 2;
    }

    method PutBytes(s: seq<Byte>)
      requires Fits(|s|)
      modifies this`pos, data
      ensures data[..] == Spliced(old(data[..]), old(pos), s) && pos == old(pos) + |s|
    {
      forall i | 0 <= i < |s| {
        data[pos + i] := s[i];
      }
      assert data[..] == Spliced(old(data[..]), old(pos), s);
      pos := pos + |s|;
    }

    method PutString(s: MqttString)
      requires Fits(2 + |s|)
      modifies this`pos, data
      ensures data[..] == Spliced(old(data[..]), old(pos), StringBytes(s)) && pos == old(pos) + 2 + |s|
    {
      PutShort(|s|);
      PutBytes(s);
      SplicedTwice(old(data[..]), old(pos), ShortBytes(|s|), s);
    }

    /** One round of the length loop: seven bits of `x`, marked when more follow. */
    method PutLengthOctet(x: nat) returns (rest: nat)
      requires Fits(1)
      modifies this`pos, data
      ensures data[..] == Spliced(old(data[..]), old(pos), [LengthOctet(x)]) && pos == old(pos) + 1
      ensures rest == x / 128
    {
      var octet := (x % 128) as Byte;
      rest := x / 128;
      if rest > 0 {
        octet := octet | 0x80;
      }
      PutOctet(octet);
    }

    /** `len` counts the length bytes. */
    method PutVariableLength(value: nat) returns (len: nat)
      requires value < UINT32 && Fits(|LengthBytes(value)|)
      modifies this`pos, data
      ensures data[..] == Spliced(old(data[..]), old(pos), LengthBytes(value))
      ensures len == |LengthBytes(value)| && pos == old(pos) + len
    {
      hide Spliced;
      hide LengthOctet;
      var x := value;
      ghost var final := Spliced(data[..], pos, LengthBytes(value));
      len := 0;
      var more := true;
      while more
        invariant pos == old(pos) + len && len + (if more then |LengthBytes(x)| else 0) == |LengthBytes(value)|
        invariant final == if more then Spliced(data[..], pos, LengthBytes(x)) else data[..]
        decreases more, x
      {
        ghost var tail := if x < 128 then [] else LengthBytes(x / 128);
        assert LengthBytes(x) == [LengthOctet(x)] + tail;
        SplicedTwice(data[..], pos, [LengthOctet(x)], tail);
        len := len + 1;
        x := PutLengthOctet(x);
        SplicedNothing(data[..], pos);
        more := x > 0;
      }
    }

    method PutBit(on: bool, bit: Byte, inc: bool)
      requires Fits(1) && bit < 8
      modifies this`pos, data
      ensures data[..] == old(data[..])[old(pos) := SetBit(old(data[pos]), on, bit)]
      ensures pos == old(pos) + if inc then 1 else 0
    {
      data[pos] := if on then data[pos] | (1 << bit) else data[pos] & !(1 << bit);
      if inc {
        pos := pos + 1;
      }
    }

    method Put2Bit(v: Byte, bit: Byte, inc: bool)
      requires Fits(1) && bit < 8
      modifies this`pos, data
      ensures data[..] == old(data[..])[old(pos) := Set2Bit(old(data[pos]), v, bit)]
      ensures pos == old(pos) + if inc then 1 else 0
    {
      var octet := data[pos] & !(3 << bit);
      octet := octet | ((v & 3) << bit);
      data[pos] := octet;
      if inc {
        pos := pos + 1;
      }
    }

    method Put4Bit(v: Byte, bit: Byte, inc: bool)
      requires Fits(1) && bit < 8
      modifies this`pos, data
      ensures data[..] == old(data[..])[old(pos) := Set4Bit(old(data[pos]), v, bit)]
      ensures pos == old(pos) + if inc then 1 else 0
    {
      var octet := data[pos] & !(0xF << bit);
      octet := octet | ((v & 0xF) << bit);
      data[pos] := octet;
      if inc {
        pos := pos + 1;
      }
    }

    method GetOctet() returns (v: Byte)
      requires Fits(1)
      modifies this`pos
      ensures v == old(Ahead())[0] && pos == old(pos) + 1
    {
      v := data[pos];
      pos := pos + 1;
    }

    method GetShort() returns (v: PacketId)
      requires Fits(2)
      modifies this`pos
      ensures v == ShortAt(old(Ahead())) && pos == old(pos) + 2
    {
      v := data[pos] as int * 256;
      v := v + data[pos + 1] as int;
      pos := pos + 2;
    }

    method GetString() returns (s: MqttString)
      requires Fits(2) && Fits(2 + ShortAt(Ahead()))
      modifies this`pos
      ensures |s| == ShortAt(old(Ahead())) && s == old(Ahead())[2..2 + |s|] && pos == old(pos) + 2 + |s|
    {
      var len := GetShort();
      s := data[pos..pos + len];
      pos := pos + len;
    }

    method GetVariableLength() returns (value: nat)
      requires Fits(0) && Terminated(Ahead())
      modifies this`pos
      ensures var n := FieldSize(old(Ahead())); pos == old(pos) + n && value == Accumulated(old(Ahead())[..n], 0, 1)
    {
      ghost var s := Ahead();
      ghost var n := FieldSize(s);
      ghost var k := 0;
      var multiplier: nat := 1;
      value := 0;
      var more := true;
      while more
        invariant 0 <= k <= n && pos == old(pos) + k && (more <==> k < n)
        invariant Accumulated(s[..n], 0, 1) == Accumulated(s[k..n], value, multiplier)
        decreases n - k
      {
        var octet := data[pos];
        assert octet == s[k] && s[k..n][0] == octet && s[k..n][1..] == s[k + 1..n];
        pos := pos + 1;
        value := (value + (octet & 127) as int * multiplier) % UINT32;
        multiplier := multiplier * 128 % UINT32;
        more := octet & 128 != 0;
        k := k + 1;
      }
    }
  }
}
