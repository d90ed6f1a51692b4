/** The shift-and-accumulate hexadecimal reader of js_console.c. */
module HexString {

  const UINT32 := 0x1_0000_0000

  /** Bitwise or of unsigned numbers. */
  function Or(a: nat, b: nat): nat {
    if a == 0 && b == 0 then 0
    else 2 * Or(a / 2, b / 2) + if a % 2 == 1 || b % 2 == 1 then 1 else 0
  }

  function Pow2(k: nat): (p: nat)
    ensures p >= 1
  {
    if k == 0 then 1 else 2 * Pow2(k - 1)
  }

  /** A multiple of 2^k and a number below it have no bit in common. */
  lemma {:induction false} OrOfDisjoint(a: nat, b: nat, k: nat)
    requires b < Pow2(k)
    ensures Or(a * Pow2(k), b) == a * Pow2(k) + b
    decreases k, a
  {
    if k == 0 {
      if a > 0 {
        OrOfDisjoint(a / 2, 0, 0);
      }
    } else {
      var p := Pow2(k - 1);
      assert a * Pow2(k) == 2 * (a * p);
      OrOfDisjoint(a, b / 2, k - 1);
    }
  }

  /** The characters that the reader takes for a digit: everything from '"' to '?', and the letters. */
  predicate Accepted(c: char) {
    0x21 as char < c < 0x40 as char || 'a' <= c <= 'f' || 'A' <= c <= 'F'
  }

  predicate AllAccepted(s: string) {
    forall i :: 0 <= i < |s| ==> Accepted(s[i])
  }

  function Nibble(c: char): (d: nat)
    requires Accepted(c)
    ensures d < 16
  {
    if c < 0x40 as char then c as int % 16 else c as int % 16 + 9
  }

  predicate IsHexDigit(c: char) {
    '0' <= c <= '9' || 'a' <= c <= 'f' || 'A' <= c <= 'F'
  }

  function HexDigit(c: char): nat
    requires IsHexDigit(c)
  {
    if c <= '9' then c as int - '0' as int
    else if c <= 'F' then 10 + (c as int - 'A' as int)
    else 10 + (c as int - 'a' as int)
  }

  /** Every hex digit is read as its value; the reader also takes exactly the punctuation around the decimal digits. */
  lemma ReadsHexDigits(c: char)
    ensures IsHexDigit(c) ==> Accepted(c) && Nibble(c) == HexDigit(c)
    ensures Accepted(c) && !IsHexDigit(c) <==> '"' <= c <= '/' || ':' <= c <= '?'
    ensures '"' <= c <= '/' ==> Nibble(c) == c as int - 0x20
    ensures ':' <= c <= '?' ==> Nibble(c) == c as int - 0x30
  {
  }

  /** How many leading characters the reader consumes. */
  function Consumed(s: string): (n: nat)
    ensures n <= |s| && n <= 8 && AllAccepted(s[..n])
    ensures n < |s| && n < 8 ==> !Accepted(s[n])
  {
    ConsumedFrom(s, 0)
  }

  function ConsumedFrom(s: string, n: nat): (m: nat)
    requires n <= |s| && n <= 8
    ensures n <= m <= |s| && m <= 8 && forall i :: n <= i < m ==> Accepted(s[i])
    ensures m < |s| && m < 8 ==> !Accepted(s[m])
    decreases |s| - n
  {
    if n < |s| && n < 8 && Accepted(s[n]) then ConsumedFrom(s, n + 1) else n
  }

  /** The positional base-16 value. */
  function Positional(s: string): nat
    requires AllAccepted(s)
  {
    if s == "" then 0 else 16 * Positional(s[..|s| - 1]) + Nibble(s[|s| - 1])
  }

  lemma Pow2Nibble(k: nat)
    ensures Pow2(k + 4) == 16 * Pow2(k)
  {
    assert Pow2(k + 4) == 2 * Pow2(k + 3) && Pow2(k + 3) == 2 * Pow2(k + 2) && Pow2(k + 2) == 2 * Pow2(k + 1);
  }

  lemma {:induction false} PositionalFits(s: string)
    requires AllAccepted(s)
    ensures Positional(s) < Pow2(4 * |s|)
  {
    if s != "" {
      PositionalFits(s[..|s| - 1]);
      Pow2Nibble(4 * |s| - 4);
    }
  }

  lemma PositionalNext(s: string, n: nat)
    requires n < |s| && AllAccepted(s[..n]) && Accepted(s[n])
    ensures AllAccepted(s[..n + 1]) && Positional(s[..n + 1]) == 16 * Positional(s[..n]) + Nibble(s[n])
  {
    assert s[..n + 1][..n] == s[..n];
  }

  /** `h` with `k` nibbles of room below it. */
  function Placed(h: nat, k: nat): nat {
    h * Pow2(4 * k)
  }

  lemma NibbleProducts(h: nat, d: nat, p: nat)
    requires d < 16 && p >= 1
    ensures 0 <= d * p < 16 * p
    ensures h * (16 * p) + d * p == (16 * h + d) * p
  {
  }

  lemma OrOfNibble(h: nat, d: nat, k: nat)
    requires d < 16
    ensures Or(h * Pow2(4 * (k + 1)), d * Pow2(4 * k)) == (16 * h + d) * Pow2(4 * k)
  {
    var p := Pow2(4 * k);
    Pow2Nibble(4 * k);
    NibbleProducts(h, d, p);
    OrOfDisjoint(h, d * p, 4 * (k + 1));
  }

  /** One round of the reader: the next digit goes just below the digits read so far. */
  lemma NextDigit(h: nat, d: nat, k: nat)
    requires d < 16
    ensures Or(Placed(h, k + 1), Placed(d, k)) == Placed(16 * h + d, k)
  {
    hide Or;
    hide Pow2;
    OrOfNibble(h, d, k);
  }

  /** Right shift by `k` nibbles. */
  function Dropped(v: nat, k: nat): int {
    v / Pow2(4 * k)
  }

  lemma Unplaced(s: string, k: nat)
    requires AllAccepted(s) && |s| + k == 8
    ensures Dropped(Placed(Positional(s), k), k) == Positional(s) < UINT32
  {
    PositionalFits(s);
    Pow2Grows(4 * |s|, 32);
    QuotientOfProduct(Positional(s), Pow2(4 * k));
  }

  /** The reader's two ranges of characters. */
  method DigitOf(c: char) returns (taken: bool, d: nat)
    ensures taken <==> Accepted(c)
    ensures taken ==> d == Nibble(c)
  {
    if 0x21 as char < c < 0x40 as char {
      return true, c as int % 16;
    } else if 'a' <= c <= 'f' || 'A' <= c <= 'F' {
      return true, c as int % 16 + 9;
    }
    return false, 0;
  }

  /** The loop after `n` characters: all were taken, and their digits stand at the top of the 32-bit value. */
  ghost predicate Read(s: string, n: nat, value: nat) {
    && n <= |s| && n <= 8 && AllAccepted(s[..n])
    && value == Placed(Positional(s[..n]), 8 - n)
    && ConsumedFrom(s, 0) == ConsumedFrom(s, n)
  }

  lemma ReadsNothing(s: string)
    ensures Read(s, 0, 0)
  {
  }

  lemma ReadsOneMore(s: string, n: nat, value: nat)
    requires Read(s, n, value) && n < |s| && n < 8 && Accepted(s[n])
    ensures Read(s, n + 1, Or(value, Placed(Nibble(s[n]), 7 - n)))
  {
    PositionalNext(s, n);
    NextDigit(Positional(s[..n]), Nibble(s[n]), 7 - n);
  }

  lemma ReadsAll(s: string, n: nat, value: nat)
    requires Read(s, n, value) && (n == |s| || n == 8 || !Accepted(s[n]))
    ensures Dropped(value, 8 - n) == Positional(s[..Consumed(s)]) < UINT32
  {
    Unplaced(s[..n], 8 - n);
  }

  /** `hexStr` is NUL-terminated.  With no character taken, a zero value is shifted by all 32 bits and stays zero. */
  method HexStrToInt(hexStr: array<char>, ghost s: string) returns (result: int)
    requires |s| < hexStr.Length && hexStr[|s|] == 0 as char
    requires forall i :: 0 <= i < |s| ==> hexStr[i] == s[i] != 0 as char
    ensures result == AsInt32(Positional(s[..Consumed(s)])) && Positional(s[..Consumed(s)]) < UINT32
  {
    hide *;
    ReadsNothing(s);
    var n, value, shift := 0, 0, 7;
    while hexStr[n] != 0 as char && n < 8
      invariant n <= |s| && n <= 8 && shift == 7 - n && Read(s, n, value)
      decreases 8 - n
    {
      var taken, d := DigitOf(hexStr[n]);
      if !taken {
        break;
      }
      ReadsOneMore(s, n, value);
      value := Or(value, Placed(d, shift));
      n := n + 1;
      shift := shift - 1;
    }
    ReadsAll(s, n, value);
    result := Dropped(value, shift + 1);
    result := AsInt32(result);
  }

  /** A 32-bit pattern returned as a signed int. */
  function AsInt32(v: nat): (i: int)
    ensures -0x8000_0000 <= i < 0x8000_0000 && i % UINT32 == v % UINT32
  {
    var w := v % UINT32;
    if w < 0x8000_0000 then w else w - UINT32
  }

  lemma QuotientOfProduct(h: nat, p: nat)
    requires p >= 1
    ensures h * p / p == h
  {
    var q := h * p / p;
    assert h * p == q * p + h * p % p;
    assert (h - q) * p == h * p - q * p;
    MultipleIsFar(h - q, p);
  }

  lemma MultipleIsFar(a: int, p: int)
    requires p >= 1
    ensures (a >= 1 ==> a * p >= p) && (a <= -1 ==> a * p <= -p)
  {
  }

  lemma {:induction false} Pow2Grows(k: nat, m: nat)
    requires k <= m
    ensures Pow2(k) <= Pow2(m) && Pow2(32) == UINT32
    decreases m
  {
    if k < m {
      Pow2Grows(k, m - 1);
    }
    assert Pow2(32) == UINT32 by {
      Pow2Nibble(0);
      Pow2Nibble(4);
      Pow2Nibble(8);
      Pow2Nibble(12);
      Pow2Nibble(16);
      Pow2Nibble(20);
      Pow2Nibble(24);
      Pow2Nibble(28);
    }
  }

  /** The positional value by hex digits. */
  function HexValue(s: string): nat
    requires forall i :: 0 <= i < |s| ==> IsHexDigit(s[i])
  {
    if s == "" then 0 else 16 * HexValue(s[..|s| - 1]) + HexDigit(s[|s| - 1])
  }

  lemma {:induction false} PositionalIsHexValue(s: string)
    requires forall i :: 0 <= i < |s| ==> IsHexDigit(s[i])
    ensures AllAccepted(s) && Positional(s) == HexValue(s)
  {
    forall i | 0 <= i < |s| ensures Accepted(s[i]) && Nibble(s[i]) == HexDigit(s[i]) {
      ReadsHexDigits(s[i]);
    }
    if s != "" {
      PositionalIsHexValue(s[..|s| - 1]);
    }
  }

  /** Of a string of hex digits the reader takes the first eight, upper or lower case, at their positional value. */
  lemma HexStringsReadWhole(s: string)
    requires forall i :: 0 <= i < |s| ==> IsHexDigit(s[i])
    ensures Consumed(s) == (if |s| < 8 then |s| else 8)
    ensures Positional(s[..Consumed(s)]) == HexValue(s[..Consumed(s)])
  {
    PositionalIsHexValue(s);
    PositionalIsHexValue(s[..Consumed(s)]);
  }
}
