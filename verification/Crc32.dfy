/** The table-driven CRC-32 of fb_dump.c, proved equal to long division of bit strings. */
module Crc32 {
  import opened Arithmetic
  import opened Bytes

  /** Coefficients of polynomials over GF(2). In a register, the bit that leaves first is in front. */
  type Bits = seq<bool>

  type Word = s: Bits | |s| == 32 witness seq(32, i => false)

  function Zeros(n: nat): (s: Bits)
    ensures |s| == n
  {
    seq(n, i => false)
  }

  /** Adds a string to the front of one at least as long. */
  function Add(r: Bits, s: Bits): (t: Bits)
    requires |r| <= |s|
    ensures |t| == |s|
  {
    seq(|s|, i requires 0 <= i < |s| => if i < |r| then r[i] != s[i] else s[i])
  }

  // ---------- The reference: schoolbook division ----------

  /** x^32+x^26+x^23+x^22+x^16+x^12+x^11+x^10+x^8+x^7+x^5+x^4+x^2+x+1, highest coefficient first. */
  function Divisor(): (s: Bits)
    ensures |s| == 33 && s[0]
  {
    seq(33, i requires 0 <= i < 33 => 32 - i in {32, 26, 23, 22, 16, 12, 11, 10, 8, 7, 5, 4, 2, 1, 0})
  }

  /** The remainder of long division: cancel the leading bit with the divisor until 32 bits remain. */
  function Remainder(dividend: Bits): (r: Word)
    requires |dividend| >= 32
    decreases |dividend|
  {
    if |dividend| == 32 then dividend
    else if dividend[0] then Remainder(Add(Divisor(), dividend)[1..])
    else Remainder(dividend[1..])
  }

  function Complement(s: Bits): (t: Bits)
    ensures |t| == |s|
  {
    seq(|s|, i requires 0 <= i < |s| => !s[i])
  }

  /** Section 8 of RFC 1952: the first 32 bits of the augmented message are complemented before
      the division and the remainder is complemented after it. */
  function CrcBits(p: seq<Byte>): (r: Word) {
    var dividend := MessageBits(p) + Zeros(32);
    Complement(Remainder(Complement(dividend[..32]) + dividend[32..]))
  }

  /** The n low bits of a machine word, least significant first: RFC 1952 takes bytes in this order. */
  function LowBits(w: nat, n: nat): (s: Bits)
    ensures |s| == n
    decreases n, w
  {
    if n == 0 then [] else [w % 2 == 1] + LowBits(w / 2, n - 1)
  }

  function MessageBits(p: seq<Byte>): (s: Bits)
    ensures |s| == 8 * |p|
  {
    if p == [] then [] else LowBits(p[0], 8) + MessageBits(p[1..])
  }

  // ---------- The register, bit by bit and byte by byte ----------

  /** One step of the inner table loop: shift out a bit, subtracting the polynomial if it was 1. */
  function Shift(c: Word): Word {
    if c[0] then Add(Divisor()[1..], c[1..] + [false]) else c[1..] + [false]
  }

  function Shifts(c: Word, k: nat): Word
    decreases k, c
  {
    if k == 0 then c else Shifts(Shift(c), k - 1)
  }

  function Serial(c: Word, bits: Bits): Word
    decreases |bits|
  {
    if bits == [] then c else Serial(Shift(Add(bits[..1], c)), bits[1..])
  }

  /** One step of the main loop, with the table entry written out. */
  function ByteStep(c: Word, byte: Bits): Word
    requires |byte| == 8
  {
    Add(Shifts(Add(byte, c)[..8] + Zeros(24), 8), c[8..] + Zeros(8))
  }

  lemma {:induction false} SerialConcat(c: Word, s: Bits, t: Bits)
    ensures Serial(c, s + t) == Serial(Serial(c, s), t)
    decreases |s|
  {
    if s == [] {
      assert s + t == t;
    } else {
      assert (s + t)[1..] == s[1..] + t;
      assert (s + t)[..1] == s[..1];
      SerialConcat(Shift(Add(s[..1], c)), s[1..], t);
    }
  }

  /** Feeding bits one by one is adding them all at once and shifting as many times. */
  lemma {:induction false} SerialIsShifts(c: Word, w: Bits)
    requires |w| <= 32
    ensures Serial(c, w) == Shifts(Add(w, c), |w|)
    decreases |w|
  {
    if w == [] {
      assert Add(w, c) == c;
    } else {
      assert Shift(Add(w, c)) == Add(w[1..], Shift(Add(w[..1], c)));
      SerialIsShifts(Shift(Add(w[..1], c)), w[1..]);
    }
  }

  lemma {:induction false} ShiftsAreLinear(a: Word, b: Word, k: nat)
    ensures Shifts(Add(a, b), k) == Add(Shifts(a, k), Shifts(b, k))
    decreases k
  {
    if k > 0 {
      assert Shift(Add(a, b)) == Add(Shift(a), Shift(b));
      ShiftsAreLinear(Shift(a), Shift(b), k - 1);
    }
  }

  lemma {:induction false} ShiftsOut(s: Bits, j: nat, k: nat)
    requires j + |s| + k == 32
    ensures Shifts(Zeros(j) + s + Zeros(k), j) == s + Zeros(j + k)
    decreases j
  {
    var c: Word := Zeros(j) + s + Zeros(k);
    if j == 0 {
      assert c == s + Zeros(k);
    } else {
      assert Shift(c) == Zeros(j - 1) + s + Zeros(k + 1);
      ShiftsOut(s, j - 1, k + 1);
    }
  }

  lemma {:induction false} ByteStepIsSerial(c: Word, byte: Bits)
    requires |byte| == 8
    ensures ByteStep(c, byte) == Serial(c, byte)
  {
    var x: Word := Add(byte, c);
    var low: Word, high: Word := x[..8] + Zeros(24), Zeros(8) + c[8..] + Zeros(0);
    SerialIsShifts(c, byte);
    assert x == Add(low, high);
    ShiftsAreLinear(low, high, 8);
    ShiftsOut(c[8..], 8, 0);
  }

  function Register(c: Word, p: seq<Byte>): Word
    decreases |p|
  {
    if p == [] then c else Register(ByteStep(c, LowBits(p[0], 8)), p[1..])
  }

  lemma {:induction false} RegisterIsSerial(c: Word, p: seq<Byte>)
    ensures Register(c, p) == Serial(c, MessageBits(p))
    decreases |p|
  {
    if p != [] {
      var byte := LowBits(p[0], 8);
      ByteStepIsSerial(c, byte);
      SerialConcat(c, byte, MessageBits(p[1..]));
      RegisterIsSerial(ByteStep(c, byte), p[1..]);
    }
  }

  // ---------- The register is the running remainder ----------

  lemma {:induction false} DivisionStep(c: Word, bits: Bits)
    requires bits != []
    ensures Remainder(Add(c, bits + Zeros(32))) == Remainder(Add(Shift(Add(bits[..1], c)), bits[1..] + Zeros(32)))
  {
    var d := Add(c, bits + Zeros(32));
    var next := Add(Shift(Add(bits[..1], c)), bits[1..] + Zeros(32));
    var rest := if d[0] then Add(Divisor(), d)[1..] else d[1..];
    assert |rest| == |next|;
    forall i | 0 <= i < |rest| ensures rest[i] == next[i] {}
    assert rest == next;
  }

  lemma {:induction false} SerialIsRemainder(c: Word, bits: Bits)
    ensures Serial(c, bits) == Remainder(Add(c, bits + Zeros(32)))
    decreases |bits|
  {
    if bits == [] {
      assert Add(c, bits + Zeros(32)) == c;
    } else {
      DivisionStep(c, bits);
      SerialIsRemainder(Shift(Add(bits[..1], c)), bits[1..]);
    }
  }

  /** The table-driven register, complemented, is the remainder of the division, for every message. */
  lemma {:induction false} TableFormIsDivision(p: seq<Byte>)
    ensures Complement(Register(Complement(Zeros(32)), p)) == CrcBits(p)
  {
    var ones: Word := Complement(Zeros(32));
    var m := MessageBits(p) + Zeros(32);
    RegisterIsSerial(ones, p);
    SerialIsRemainder(ones, MessageBits(p));
    assert Add(ones, m) == Complement(m[..32]) + m[32..];
  }

  // ---------- Machine words: an unsigned int is a number below 2^32 ----------

  type UInt = c: nat | c < 0x1_0000_0000

  lemma {:induction false} Pow2Values()
    ensures Pow2(8) == 0x100 && Pow2(32) == 0x1_0000_0000
  {
    assert Pow2(8) == 16 * Pow2(4) && Pow2(16) == 256 * Pow2(8) by { Pow2Adds(4, 4); Pow2Adds(8, 8); }
    Pow2Adds(16, 16);
  }

  /** The C operator ^ on unsigned operands. */
  function Xor(a: nat, b: nat): nat
    decreases a + b
  {
    if a == 0 && b == 0 then 0 else 2 * Xor(a / 2, b / 2) + (if a % 2 != b % 2 then 1 else 0)
  }

  lemma {:induction false} XorAdds(a: nat, b: nat, n: nat)
    ensures LowBits(Xor(a, b), n) == Add(LowBits(a, n), LowBits(b, n))
    decreases n
  {
    if n > 0 {
      XorAdds(a / 2, b / 2, n - 1);
      assert Xor(a, b) / 2 == Xor(a / 2, b / 2);
      assert (Xor(a, b) % 2 == 1) == ((a % 2 == 1) != (b % 2 == 1));
    }
  }

  lemma {:induction false} XorBound(a: nat, b: nat, n: nat)
    requires a < Pow2(n) && b < Pow2(n)
    ensures Xor(a, b) < Pow2(n)
    decreases n
  {
    if n > 0 {
      XorBound(a / 2, b / 2, n - 1);
    }
  }

  lemma {:induction false} HighBits(w: nat, n: nat, k: nat)
    requires w < Pow2(n)
    ensures LowBits(w, n + k) == LowBits(w, n) + Zeros(k)
    decreases n + k
  {
    if n == 0 {
      if k > 0 {
        HighBits(0, 0, k - 1);
        assert Zeros(k) == [false] + Zeros(k - 1);
      }
    } else {
      HighBits(w / 2, n - 1, k);
    }
  }

  function ShiftRight(w: nat, n: nat): nat
    decreases n, w
  {
    if n == 0 then w else ShiftRight(w / 2, n - 1)
  }

  lemma {:induction false} SplitBits(w: nat, n: nat, k: nat)
    ensures LowBits(w, n + k) == LowBits(w, n) + LowBits(ShiftRight(w, n), k)
    decreases n
  {
    if n == 0 {
      assert LowBits(w, n + k) == LowBits(w, n) + LowBits(ShiftRight(w, n), k);
    } else {
      SplitBits(w / 2, n - 1, k);
    }
  }

  lemma {:induction false} LowBitsOfRemainder(w: nat, n: nat, q: nat)
    ensures LowBits(w + Pow2(n) * q, n) == LowBits(w, n)
    decreases n
  {
    if n > 0 {
      var v := w + Pow2(n) * q;
      assert Pow2(n) * q == 2 * (Pow2(n - 1) * q);
      assert v / 2 == w / 2 + Pow2(n - 1) * q && v % 2 == w % 2;
      LowBitsOfRemainder(w / 2, n - 1, q);
    }
  }

  function Contents(c: UInt): Word {
    LowBits(c, 32)
  }

  lemma {:induction false} ShiftRightTwo(c: nat, n: nat)
    requires n >= 2
    ensures ShiftRight(c, n) == ShiftRight(c / 4, n - 2)
  {
    assert ShiftRight(c, n) == ShiftRight(c / 2, n - 1) == ShiftRight(c / 2 / 2, n - 2);
  }

  lemma {:induction false} ShiftRightEight(c: UInt)
    ensures ShiftRight(c, 8) == c / 256
  {
    ShiftRightTwo(c, 8);
    ShiftRightTwo(c / 4, 6);
    ShiftRightTwo(c / 4 / 4, 4);
    ShiftRightTwo(c / 4 / 4 / 4, 2);
    assert c / 4 / 4 / 4 / 4 == c / 256;
  }

  /** The low n bits of a word and the n-bit number they spell, which the mask of the source keeps. */
  lemma {:induction false} LowPart(c: nat, n: nat, k: nat, r: nat, q: nat)
    requires c == r + Pow2(n) * q && r < Pow2(n)
    ensures LowBits(c, n + k)[..n] == LowBits(r, n)
    ensures LowBits(r, n + k) == LowBits(r, n) + Zeros(k)
  {
    SplitBits(c, n, k);
    LowBitsOfRemainder(r, n, q);
    HighBits(r, n, k);
  }

  lemma {:induction false} LowByte(c: UInt)
    ensures Contents(c)[..8] == LowBits(c % 256, 8)
    ensures Contents(c % 256) == LowBits(c % 256, 8) + Zeros(24)
  {
    Pow2Values();
    LowPart(c, 8, 24, c % 256, c / 256);
  }

  lemma {:induction false} HighBytes(c: UInt)
    ensures Contents(c / 256) == Contents(c)[8..] + Zeros(8)
  {
    Pow2Values();
    SplitBits(c, 8, 24);
    ShiftRightEight(c);
    assert Pow2(24) * 256 == Pow2(32) by { Pow2Adds(24, 8); }
    HighBits(c / 256, 24, 8);
  }

  lemma {:induction false} XorContents(a: UInt, b: UInt)
    ensures Xor(a, b) < 0x1_0000_0000
    ensures Contents(Xor(a, b)) == Add(Contents(a), Contents(b))
  {
    Pow2Values();
    XorBound(a, b, 32);
    XorAdds(a, b, 32);
  }

  lemma {:induction false} HalfContents(c: UInt)
    ensures Contents(c / 2) == Contents(c)[1..] + [false]
  {
    Pow2Values();
    HighBits(c / 2, 31, 1);
    SplitBits(c, 1, 31);
    assert ShiftRight(c, 1) == c / 2;
    assert Zeros(1) == [false];
  }

  const POLY: UInt := 0xEDB88320
  const ONES: UInt := 0xFFFF_FFFF

  /** The number whose bits, lowest first, are the suffix of s from k on. */
  function Number(s: Bits, k: nat): nat
    requires k <= |s|
    decreases |s| - k
  {
    if k == |s| then 0 else (if s[k] then 1 else 0) + 2 * Number(s, k + 1)
  }

  lemma {:induction false} NumberBits(s: Bits, k: nat)
    requires k <= |s|
    ensures LowBits(Number(s, k), |s| - k) == s[k..]
    decreases |s| - k
  {
    if k < |s| {
      NumberBits(s, k + 1);
    }
  }

  lemma {:induction false} PolynomialNumber(d: Bits)
    requires d == Divisor()
    ensures Number(d, 1) == 0xEDB88320
  {
    PolynomialUpperHalf(d);
    assert Number(d, 15) == 0x3B6E2;
    assert Number(d, 13) == 0xEDB88;
    assert Number(d, 11) == 0x3B6E20;
    assert Number(d, 9) == 0xEDB883;
    assert Number(d, 7) == 0x3B6E20C;
    assert Number(d, 5) == 0xEDB8832;
    assert Number(d, 3) == 0x3B6E20C8;
  }

  lemma {:induction false} PolynomialUpperHalf(d: Bits)
    requires d == Divisor()
    ensures Number(d, 17) == 0xEDB8
  {
    assert Number(d, 33) == 0;
    assert Number(d, 32) == 1;
    assert Number(d, 31) == 0x3;
    assert Number(d, 29) == 0xE;
    assert Number(d, 27) == 0x3B;
    assert Number(d, 25) == 0xED;
    assert Number(d, 23) == 0x3B6;
    assert Number(d, 21) == 0xEDB;
    assert Number(d, 19) == 0x3B6E;
  }

  lemma {:induction false} Constants()
    ensures Contents(POLY) == Divisor()[1..]
    ensures Contents(ONES) == Complement(Zeros(32))
  {
    PolynomialNumber(Divisor());
    NumberBits(Divisor(), 1);
    Pow2Values();
    AllOnes(32);
  }

  lemma {:induction false} AllOnes(n: nat)
    ensures LowBits(Pow2(n) - 1, n) == Complement(Zeros(n))
    decreases n
  {
    if n > 0 {
      assert (Pow2(n) - 1) / 2 == Pow2(n - 1) - 1;
      AllOnes(n - 1);
      assert Complement(Zeros(n)) == [true] + Complement(Zeros(n - 1));
    }
  }

  lemma {:induction false} ShiftContents(c: UInt)
    ensures var r := if c % 2 == 1 then Xor(POLY, c / 2) else c / 2;
            r < 0x1_0000_0000 && Contents(r) == Shift(Contents(c))
  {
    Constants();
    HalfContents(c);
    XorContents(POLY, c / 2);
  }

  /** A turn of the inner table loop. */
  lemma {:induction false} TurnShifts(c: UInt, d: nat, k: nat)
    requires k > 0 && d == if c % 2 == 1 then Xor(POLY, c / 2) else c / 2
    ensures d < 0x1_0000_0000 && Shifts(Contents(d), k - 1) == Shifts(Contents(c), k)
  {
    ShiftContents(c);
  }

  lemma {:induction false} TableStep(c: UInt, b: Byte, entry: UInt)
    requires Contents(entry) == Shifts(Contents(Xor(c, b) % 256), 8)
    ensures var r := Xor(entry, c / 256);
            r < 0x1_0000_0000 && Contents(r) == ByteStep(Contents(c), LowBits(b, 8))
  {
    var x := Xor(c, b);
    XorContents(c, b);
    XorContents(entry, c / 256);
    HighBytes(c);
    LowByte(x);
    XorLowByte(c, b);
  }

  lemma {:induction false} XorLowByte(c: UInt, b: Byte)
    ensures LowBits(Xor(c, b) % 256, 8) == Add(LowBits(b, 8), Contents(c))[..8]
  {
    Pow2Values();
    var x := Xor(c, b);
    XorLowPart(c, b, 8, 24, x % 256, x / 256);
  }

  lemma {:induction false} XorLowPart(c: nat, b: nat, n: nat, k: nat, r: nat, q: nat)
    requires b < Pow2(n) && Xor(c, b) == r + Pow2(n) * q && r < Pow2(n)
    ensures LowBits(r, n) == Add(LowBits(b, n), LowBits(c, n + k))[..n]
  {
    XorAdds(c, b, n);
    LowPart(Xor(c, b), n, k, r, q);
    SplitBits(c, n, k);
    SplitBits(Xor(c, b), n, k);
    assert LowBits(c, n + k)[..n] == LowBits(c, n);
    assert LowBits(Xor(c, b), n + k)[..n] == LowBits(Xor(c, b), n);
    assert Add(LowBits(b, n), LowBits(c, n + k))[..n] == Add(LowBits(c, n), LowBits(b, n));
  }

  // ---------- The function of the source, with its lazily built static table ----------

  /** The table entry of i. */
  ghost predicate Shifted(c: UInt, i: UInt) { Contents(c) == Shifts(Contents(i), 8) }

  ghost predicate Filled(table: seq<UInt>, n: nat) {
    n <= |table| <= 256 && forall i :: 0 <= i < n ==> Shifted(table[i], i)
  }

  lemma {:induction false} FilledMore(table: seq<UInt>, i: nat, c: UInt, next: seq<UInt>)
    requires Filled(table, i) && i < |table| && Shifted(c, i) && next == table[i := c]
    ensures Filled(next, i + 1)
  {}

  class Checksum {
    const table: array<UInt>
    var ready: bool

    ghost predicate Valid()
      reads this, table
    {
      table.Length == 256 && (ready ==> Filled(table[..], 256))
    }

    constructor ()
      ensures Valid() && fresh(table)
    {
      table := new UInt[256](_ => 0);
      ready := false;
    }

    static method TableEntry(i: UInt) returns (c: UInt)
      ensures Shifted(c, i)
    {
      c := i;
      ghost var shifted := Shifts(Contents(i), 8);
      for k := 0 to 8
        invariant Shifts(Contents(c), 8 - k) == shifted
      {
        var d := if c % 2 == 1 then Xor(POLY, c / 2) else c / 2;
        TurnShifts(c, d, 8 - k);
        c := d;
      }
    }

    /** Fills the static table on the first call. */
    method BuildTable()
      requires Valid()
      modifies this, table
      ensures Valid() && ready
    {
      if !ready {
        for i := 0 to 256
          invariant Filled(table[..], i)
        {
          var c := TableEntry(i);
          ghost var before := table[..];
          table[i] := c;
          FilledMore(before, i, c, table[..]);
        }
        ready := true;
      }
    }

    /** First and later calls return the same value, and it is the division remainder. */
    method Crc32Of(p: seq<Byte>) returns (crc: UInt)
      requires Valid()
      modifies this, table
      ensures Valid() && ready
      ensures Contents(crc) == CrcBits(p)
    {
      BuildTable();
      var c: UInt := 0xFFFF_FFFF;
      for i := 0 to |p|
        invariant Valid() && ready
        invariant Register(Contents(ONES), p) == Register(Contents(c), p[i..])
      {
        assert Shifted(table[..][TableIndex(c, p[i])], TableIndex(c, p[i]));
        MainStep(c, p, i, table[TableIndex(c, p[i])]);
        c := Xor(table[TableIndex(c, p[i])], c / 256);
      }
      FinalComplement(c, p);
      crc := Xor(c, 0xFFFF_FFFF);
    }
  }

  function TableIndex(c: UInt, b: Byte): Byte {
    Xor(c, b) % 256
  }

  lemma {:induction false} MainStep(c: UInt, p: seq<Byte>, i: nat, entry: UInt)
    requires i < |p|
    requires Contents(entry) == Shifts(Contents(TableIndex(c, p[i])), 8)
    ensures Xor(entry, c / 256) < 0x1_0000_0000
    ensures Register(Contents(c), p[i..]) == Register(Contents(Xor(entry, c / 256)), p[i + 1..])
  {
    TableStep(c, p[i], entry);
    assert p[i..][0] == p[i] && p[i..][1..] == p[i + 1..];
  }

  lemma {:induction false} FinalComplement(c: UInt, p: seq<Byte>)
    requires Register(Contents(ONES), p) == Register(Contents(c), p[|p|..])
    ensures Xor(c, ONES) < 0x1_0000_0000 && Contents(Xor(c, ONES)) == CrcBits(p)
  {
    assert p[|p|..] == [];
    Constants();
    XorContents(c, ONES);
    TableFormIsDivision(p);
    assert Add(Contents(c), Contents(ONES)) == Complement(Contents(c));
  }
}
