/** Byte strings with the slicing and number formats of the Python tool. */
module Bytes {
  import opened Options

  type Byte = b: int | 0 <= b < 256

  type Bytes = seq<Byte>

  function Clamp(i: nat, n: nat): (j: nat)
    ensures j <= n
  {
    if i < n then i else n
  }

  /** s[i:j] for non-negative i, where j may lie before i or beyond the end. */
  function Slice(s: Bytes, i: nat, j: int): (t: Bytes)
    ensures 0 <= i <= j <= |s| ==> t == s[i..j]
  {
    if j <= i then [] else s[Clamp(i, |s|)..Clamp(j, |s|)]
  }

  function From(s: Bytes, i: nat): Bytes {
    s[Clamp(i, |s|)..]
  }

  /** Assignment to the slice i:j of a bytearray, which may change its length. */
  function SetSlice(s: Bytes, i: nat, j: nat, v: Bytes): (t: Bytes)
    requires i <= j
    ensures j <= |s| && |v| == j - i ==>
              |t| == |s| && t[i..j] == v && t[..i] == s[..i] && t[j..] == s[j..]
  {
    s[..Clamp(i, |s|)] + v + s[Clamp(j, |s|)..]
  }

  function Zeros(n: nat): (z: Bytes)
    ensures |z| == n
  {
    seq(n, i => 0)
  }

  // ---------- '%08X' and int(s, 16) ----------

  function HexDigit(d: nat): (b: Byte)
    requires d < 16
  {
    if d < 10 then 48 + d else 55 + d
  }

  /** At least n upper-case digits. */
  function UpperHex(v: nat, n: nat): (s: Bytes)
    ensures |s| >= n
    decreases v, n
  {
    if v == 0 && n == 0 then [] else UpperHex(v / 16, if n == 0 then 0 else n - 1) + [HexDigit(v % 16)]
  }

  function Hex8(v: nat): (s: Bytes)
    ensures |s| >= 8
  {
    UpperHex(v, 8)
  }

  function DigitValue(b: Byte): Option<nat> {
    if 48 <= b <= 57 then Some(b - 48)
    else if 65 <= b <= 70 then Some(b - 55)
    else if 97 <= b <= 102 then Some(b - 87)
    else None
  }

  predicate Space(b: Byte) { b == 32 || 9 <= b <= 13 }

  function StripLeft(s: Bytes): Bytes {
    if s != [] && Space(s[0]) then StripLeft(s[1..]) else s
  }

  function StripRight(s: Bytes): Bytes {
    if s != [] && Space(s[|s| - 1]) then StripRight(s[..|s| - 1]) else s
  }

  /** Digits with single underscores between them. */
  function Digits(s: Bytes): Option<nat> {
    if s == [] then None
    else
      match DigitValue(s[|s| - 1])
      case None => None
      case Some(d) =>
        if |s| == 1 then Some(d)
        else
          var front := s[..|s| - 1];
          match Digits(if front[|front| - 1] == 95 then front[..|front| - 1] else front)
          case None => None
          case Some(v) => Some(16 * v + d)
  }

  /** Python's int(s, 16) on a byte string: white space, a sign, a prefix 0x and underscores are allowed. */
  function HexInt(s: Bytes): Option<int> {
    var t := StripRight(StripLeft(s));
    var negative := t != [] && t[0] == 45;
    var u := if t != [] && (t[0] == 45 || t[0] == 43) then t[1..] else t;
    var digits :=
      if |u| >= 2 && u[0] == 48 && (u[1] == 120 || u[1] == 88) then
        if |u| >= 3 && u[2] == 95 then u[3..] else u[2..]
      else u;
    match Digits(digits)
    case None => None
    case Some(v) => Some(if negative then 0 - v else v)
  }

  function Pow16(n: nat): (p: nat)
    ensures p > 0
  {
    if n == 0 then 1 else 16 * Pow16(n - 1)
  }

  lemma {:induction false} Pow16Of8()
    ensures Pow16(8) == 0x1_0000_0000
  {
    assert Pow16(4) == 0x1_0000;
  }

  lemma {:induction false} UpperHexLength(v: nat, n: nat)
    ensures v < Pow16(n) <==> |UpperHex(v, n)| == n
    ensures forall i :: 0 <= i < |UpperHex(v, n)| ==> DigitValue(UpperHex(v, n)[i]).Some? && UpperHex(v, n)[i] < 71
    decreases v, n
  {
    if v > 0 || n > 0 {
      UpperHexLength(v / 16, if n == 0 then 0 else n - 1);
    }
  }

  lemma {:induction false} DigitsMore(t: Bytes, c: Byte, d: nat, u: nat)
    requires DigitValue(c) == Some(d)
    requires if t == [] then u == 0 else t[|t| - 1] != 95 && Digits(t) == Some(u)
    ensures Digits(t + [c]) == Some(16 * u + d)
  {
    assert (t + [c])[..|t|] == t;
  }

  lemma {:induction false} HexDigitValue(d: nat)
    requires d < 16
    ensures DigitValue(HexDigit(d)) == Some(d)
  {}

  lemma {:induction false} DigitsOfUpperHex(v: nat, n: nat)
    requires n > 0 && v < Pow16(n)
    ensures Digits(UpperHex(v, n)) == Some(v)
    decreases n
  {
    var q, d := v / 16, v % 16;
    var t := UpperHex(q, n - 1);
    assert q < Pow16(n - 1);
    UpperHexLength(q, n - 1);
    if n > 1 {
      DigitsOfUpperHex(q, n - 1);
      assert t[|t| - 1] < 71;
    } else {
      assert q == 0 && t == [];
    }
    HexDigitValue(d);
    DigitsMore(t, HexDigit(d), d, q);
    assert UpperHex(v, n) == t + [HexDigit(d)];
  }

  lemma {:induction false} DigitsBound(s: Bytes)
    ensures Digits(s).Some? ==> Digits(s).value < Pow16(|s|)
    decreases |s|
  {
    if |s| > 1 && Digits(s).Some? {
      var front := s[..|s| - 1];
      var shorter := if front[|front| - 1] == 95 then front[..|front| - 1] else front;
      DigitsBound(shorter);
      Pow16Grows(|shorter|, |front|);
    }
  }

  lemma {:induction false} Pow16Grows(m: nat, n: nat)
    requires m <= n
    ensures Pow16(m) <= Pow16(n)
    decreases n
  {
    if m < n {
      Pow16Grows(m, n - 1);
    }
  }

  lemma {:induction false} StripShortens(s: Bytes)
    ensures |StripLeft(s)| <= |s| && |StripRight(s)| <= |s|
    decreases |s|
  {
    if s != [] {
      StripShortens(s[1..]);
      StripShortens(s[..|s| - 1]);
    }
  }

  /** Writing a size and reading it back. */
  lemma {:induction false} HexRoundTrip(v: nat)
    requires v < 0x1_0000_0000
    ensures |Hex8(v)| == 8 && HexInt(Hex8(v)) == Some(v)
  {
    Pow16Of8();
    UpperHexLength(v, 8);
    DigitsOfUpperHex(v, 8);
    var s := Hex8(v);
    assert !Space(s[0]) && !Space(s[7]) && s[1] < 71;
    assert StripRight(StripLeft(s)) == s;
  }

  /** The digits are the upper-case ones, and lower-case ones are read as well. */
  lemma {:induction false} DigitsAre(d: nat)
    requires d < 16
    ensures HexDigit(d) == "0123456789ABCDEF"[d] as int
    ensures DigitValue("0123456789ABCDEF"[d] as int) == Some(d) && DigitValue("0123456789abcdef"[d] as int) == Some(d)
  {}

  lemma {:induction false} Stripped(t: Bytes)
    requires t != [] && !Space(t[0]) && !Space(t[|t| - 1])
    ensures StripRight(StripLeft(t)) == t && StripRight(StripLeft([32] + t)) == t && StripRight(StripLeft(t + [10])) == t
  {
    assert ([32] + t)[1..] == t && (t + [10])[..|t|] == t;
  }

  lemma {:induction false} SignedNumber(sign: Byte, t: Bytes, v: nat)
    requires Digits(t) == Some(v) && DigitValue(t[0]).Some? && t[0] != 48 && (sign == 43 || sign == 45)
    ensures HexInt([sign] + t) == Some(if sign == 45 then 0 - v else v)
  {
    Stripped([sign] + t);
    assert ([sign] + t)[1..] == t;
  }

  lemma {:induction false} PrefixedNumber(x: Byte, t: Bytes, v: nat)
    requires Digits(t) == Some(v) && DigitValue(t[0]).Some? && (x == 120 || x == 88)
    ensures HexInt([48, x] + t) == Some(v)
  {
    Stripped([48, x] + t);
    assert ([48, x] + t)[2..] == t;
  }

  lemma {:induction false} PlainNumber(s: Bytes, t: Bytes, v: nat)
    requires StripRight(StripLeft(s)) == t && Digits(t) == Some(v) && DigitValue(t[0]).Some? && t[0] != 48
    ensures HexInt(s) == Some(v)
  {}

  /** White space around a number, a sign and a prefix are accepted. */
  lemma {:induction false} LooseNumbers(t: Bytes, v: nat)
    requires Digits(t) == Some(v) && DigitValue(t[0]).Some? && t[0] != 48
    ensures HexInt([32] + t) == Some(v) && HexInt(t + [10]) == Some(v)
    ensures HexInt([43] + t) == Some(v) && HexInt([45] + t) == Some(0 - v) && HexInt([48, 120] + t) == Some(v)
  {
    LastIsDigit(t);
    Stripped(t);
    PlainNumber([32] + t, t, v);
    PlainNumber(t + [10], t, v);
    SignedNumber(43, t, v);
    SignedNumber(45, t, v);
    PrefixedNumber(120, t, v);
  }

  lemma {:induction false} LastIsDigit(t: Bytes)
    requires Digits(t).Some?
    ensures t != [] && DigitValue(t[|t| - 1]).Some?
  {}

  /** Single underscores are accepted between digits, and nowhere else. */
  lemma {:induction false} Underscores(t: Bytes, v: nat, c: Byte, d: nat)
    requires Digits(t) == Some(v) && DigitValue(c) == Some(d)
    ensures Digits(t + [95, c]) == Some(16 * v + d)
    ensures Digits(t + [95]) == None && Digits([95, c]) == None
  {
    assert (t + [95, c])[..|t| + 1] == t + [95] && (t + [95])[..|t|] == t && [95, c][..1] == [95];
  }

  /** Eight characters cannot spell a number of 2^32 or more. */
  lemma {:induction false} HexIntBound(s: Bytes)
    requires |s| <= 8
    ensures HexInt(s).Some? ==> HexInt(s).value < 0x1_0000_0000
  {
    var t := StripRight(StripLeft(s));
    StripShortens(s);
    StripShortens(StripLeft(s));
    var u := if t != [] && (t[0] == 45 || t[0] == 43) then t[1..] else t;
    var digits :=
      if |u| >= 2 && u[0] == 48 && (u[1] == 120 || u[1] == 88) then
        if |u| >= 3 && u[2] == 95 then u[3..] else u[2..]
      else u;
    DigitsBound(digits);
    Pow16Grows(|digits|, 8);
    Pow16Of8();
  }

  // ---------- Little-endian words ----------

  function Le32(v: nat): (s: Bytes)
    requires v < 0x1_0000_0000
    ensures |s| == 4
  {
    [v % 0x100, v / 0x100 % 0x100, v / 0x1_0000 % 0x100, v / 0x100_0000]
  }

  function Word(s: Bytes): nat
    requires |s| == 4
  {
    var b0: int, b1: int, b2: int, b3: int := s[0], s[1], s[2], s[3];
    b0 + 0x100 * b1 + 0x1_0000 * b2 + 0x100_0000 * b3
  }

  /** The low byte comes first. */
  lemma {:induction false} LittleEndian(b0: Byte, b1: Byte, b2: Byte, b3: Byte)
    ensures Word([b0, b1, b2, b3]) == (b0 as int) + 0x100 * (b1 as int) + 0x1_0000 * (b2 as int) + 0x100_0000 * (b3 as int)
    ensures Le32(Word([b0, b1, b2, b3])) == [b0, b1, b2, b3]
  {
    WordsFit([b0, b1, b2, b3]);
  }

  lemma {:induction false} WordOfLe32(v: nat)
    requires v < 0x1_0000_0000
    ensures Word(Le32(v)) == v
  {
    assert v / 0x100 / 0x100 == v / 0x1_0000 && v / 0x1_0000 / 0x100 == v / 0x100_0000;
  }

  lemma {:induction false} WordsFit(s: Bytes)
    requires |s| == 4
    ensures Word(s) < 0x1_0000_0000 && Le32(Word(s)) == s
  {
    var v := Word(s);
    var b1: int, b2: int, b3: int := s[1], s[2], s[3];
    LowByte(v, s[0], b1 + 0x100 * b2 + 0x1_0000 * b3);
    LowByte(b1 + 0x100 * b2 + 0x1_0000 * b3, b1, b2 + 0x100 * b3);
    LowByte(b2 + 0x100 * b3, b2, b3);
    assert v / 0x1_0000 == v / 0x100 / 0x100 && v / 0x100_0000 == v / 0x100 / 0x100 / 0x100;
  }

  lemma {:induction false} LowByte(v: int, b: int, q: int)
    requires 0 <= b < 0x100 && v == b + 0x100 * q
    ensures v % 0x100 == b && v / 0x100 == q
  {}
}
