/** What the hash of libsprdshim_ioctl.c notices: every change of a single byte. */
module ColourHash {
  import opened Arithmetic
  import opened Bytes
  import opened ColourProcess

  // ---------- Modulo 2^32 ----------

  lemma {:induction false} SolveFor(d: int, m: int, inv: int, k: int, q: int)
    requires d * m == UINT32 * q && m * inv == 1 + UINT32 * k
    ensures d == UINT32 * (q * inv - d * k)
  {
    assert d * (m * inv) == d * (1 + UINT32 * k) == d + UINT32 * (d * k);
    assert (d * m) * inv == UINT32 * (q * inv);
    MultiplyAssociates(d, m, inv);
  }

  /** A factor with an inverse cancels. */
  lemma {:induction false} FactorCancels(m: int, inv: int, k: int, x: int, y: int)
    requires m * inv == 1 + UINT32 * k && (x * m) % UINT32 == (y * m) % UINT32
    ensures x % UINT32 == y % UINT32
  {
    var a, b := x * m / UINT32, y * m / UINT32;
    assert (x - y) * m == x * m - y * m == UINT32 * (a - b);
    SolveFor(x - y, m, inv, k, a - b);
    MultipleMod(y, UINT32, (a - b) * inv - (x - y) * k);
  }

  lemma {:induction false} SumMod(x: int, y: int)
    ensures (x % UINT32 + y % UINT32) % UINT32 == (x + y) % UINT32
  {
    MultipleMod(x % UINT32 + y % UINT32, UINT32, x / UINT32 + y / UINT32);
  }

  lemma {:induction false} TermCancels(c: int, x: int, y: int)
    requires (c + x) % UINT32 == (c + y) % UINT32
    ensures x % UINT32 == y % UINT32
  {
    var a, b := (c + x) / UINT32, (c + y) / UINT32;
    assert x == y + UINT32 * (a - b);
    MultipleMod(y, UINT32, a - b);
  }

  lemma {:induction false} WordMod(x: Word32)
    ensures x % UINT32 == x
  {}

  lemma {:induction false} SameTerm(c: int, p: int, q: int, m: int, inv: int, k: int, x: Word32, y: Word32)
    requires m * inv == 1 + UINT32 * k && p == x * m && q == y * m && (c + p) % UINT32 == (c + q) % UINT32
    ensures x == y
  {
    TermCancels(c, p, q);
    FactorCancels(m, inv, k, x, y);
    WordMod(x);
    WordMod(y);
  }

  // ---------- The steps without their wraps ----------

  lemma {:induction false} AddWrapped(s: nat, t: nat, x: nat)
    requires s == t % UINT32
    ensures Wrap(s + Wrap(x)) == (t + x) % UINT32
  {
    WrapIsModulo(x);
    WrapIsModulo(s + Wrap(x));
    SumMod(t, x);
  }

  lemma {:induction false} TwoAdded(s: nat, t: nat, a: nat, b: nat)
    requires s == t % UINT32
    ensures Wrap(Wrap(s + Wrap(a)) + Wrap(b)) == (t + a + b) % UINT32
  {
    AddWrapped(s, t, a);
    AddWrapped((t + a) % UINT32, t + a, b);
  }

  lemma {:induction false} ThreeAdded(t: Word32, a: nat, b: nat, c: nat)
    ensures Wrap(Wrap(Wrap(t + Wrap(a)) + Wrap(b)) + Wrap(c)) == (t + a + b + c) % UINT32
  {
    WordMod(t);
    TwoAdded(t, t, a, b);
    AddWrapped((t + a + b) % UINT32, t + a + b, c);
  }

  lemma {:induction false} FourAdded(t: nat, a: nat, b: nat, c: nat, d: nat)
    ensures Wrap(Wrap(Wrap(Wrap(Wrap(t) + Wrap(a)) + Wrap(b)) + Wrap(c)) + Wrap(d)) == (t + a + b + c + d) % UINT32
  {
    WrapIsModulo(t);
    TwoAdded(Wrap(t), t, a, b);
    TwoAdded((t + a + b) % UINT32, t + a + b, c, d);
  }

  lemma {:induction false} MixLaneSum(acc: nat, w0: nat, w1: nat, w2: nat, w3: nat, t: nat, a: nat, b: nat, c: nat, d: nat)
    requires t == acc * 2654435761 && a == w0 * 2654435761 && b == w1 * 2246822519
    requires c == w2 * 3266489917 && d == w3 * 668265263
    ensures MixLane(acc, w0, w1, w2, w3) == (t + a + b + c + d) % UINT32
  {
    FourAdded(t, a, b, c, d);
  }

  /** One lane takes in its words as a sum of products. */
  lemma {:induction false} MixLaneIs(acc: nat, w0: nat, w1: nat, w2: nat, w3: nat)
    ensures MixLane(acc, w0, w1, w2, w3) ==
            (acc * 2654435761 + w0 * 2654435761 + w1 * 2246822519 + w2 * 3266489917 + w3 * 668265263) % UINT32
  {
    MixLaneSum(acc, w0, w1, w2, w3, acc * 2654435761, w0 * 2654435761, w1 * 2246822519, w2 * 3266489917, w3 * 668265263);
  }

  lemma {:induction false} FoldIs(a: Lanes)
    ensures Fold(a) == (a.l0 + a.l1 * 2246822519 + a.l2 * 3266489917 + a.l3 * 668265263) % UINT32
  {
    ThreeAdded(a.l0, a.l1 * 2246822519, a.l2 * 3266489917, a.l3 * 668265263);
  }

  lemma {:induction false} MixTailIs(h: nat, v: Word32)
    ensures MixTail(h, v) == (h * 2654435761 + v) % UINT32
  {
    WrapIsModulo(h * 2654435761);
    WrapIsModulo(v);
    AddWrapped(Wrap(h * 2654435761), h * 2654435761, v);
  }

  // ---------- One argument changes ----------

  lemma {:induction false} AccTells(acc: Word32, acc': Word32, w0: Word32, w1: Word32, w2: Word32, w3: Word32)
    requires acc != acc'
    ensures MixLane(acc, w0, w1, w2, w3) != MixLane(acc', w0, w1, w2, w3)
  {
    MixLaneIs(acc, w0, w1, w2, w3);
    MixLaneIs(acc', w0, w1, w2, w3);
    if MixLane(acc, w0, w1, w2, w3) == MixLane(acc', w0, w1, w2, w3) {
      var c := w0 * 2654435761 + w1 * 2246822519 + w2 * 3266489917 + w3 * 668265263;
      SameTerm(c, acc * 2654435761, acc' * 2654435761, 2654435761, 244002641, 150801925, acc, acc');
    }
  }

  lemma {:induction false} Word0Tells(acc: Word32, w0: Word32, v0: Word32, w1: Word32, w2: Word32, w3: Word32)
    requires w0 != v0
    ensures MixLane(acc, w0, w1, w2, w3) != MixLane(acc, v0, w1, w2, w3)
  {
    MixLaneIs(acc, w0, w1, w2, w3);
    MixLaneIs(acc, v0, w1, w2, w3);
    if MixLane(acc, w0, w1, w2, w3) == MixLane(acc, v0, w1, w2, w3) {
      var c := acc * 2654435761 + w1 * 2246822519 + w2 * 3266489917 + w3 * 668265263;
      SameTerm(c, w0 * 2654435761, v0 * 2654435761, 2654435761, 244002641, 150801925, w0, v0);
    }
  }

  lemma {:induction false} Word1Tells(acc: Word32, w0: Word32, w1: Word32, v1: Word32, w2: Word32, w3: Word32)
    requires w1 != v1
    ensures MixLane(acc, w0, w1, w2, w3) != MixLane(acc, w0, v1, w2, w3)
  {
    MixLaneIs(acc, w0, w1, w2, w3);
    MixLaneIs(acc, w0, v1, w2, w3);
    if MixLane(acc, w0, w1, w2, w3) == MixLane(acc, w0, v1, w2, w3) {
      var c := acc * 2654435761 + w0 * 2654435761 + w2 * 3266489917 + w3 * 668265263;
      SameTerm(c, w1 * 2246822519, v1 * 2246822519, 2246822519, 3066638151, 1604247758, w1, v1);
    }
  }

  lemma {:induction false} Word2Tells(acc: Word32, w0: Word32, w1: Word32, w2: Word32, v2: Word32, w3: Word32)
    requires w2 != v2
    ensures MixLane(acc, w0, w1, w2, w3) != MixLane(acc, w0, w1, v2, w3)
  {
    MixLaneIs(acc, w0, w1, w2, w3);
    MixLaneIs(acc, w0, w1, v2, w3);
    if MixLane(acc, w0, w1, w2, w3) == MixLane(acc, w0, w1, v2, w3) {
      var c := acc * 2654435761 + w0 * 2654435761 + w1 * 2246822519 + w3 * 668265263;
      SameTerm(c, w2 * 3266489917, v2 * 3266489917, 3266489917, 2828982549, 2151551417, w2, v2);
    }
  }

  lemma {:induction false} Word3Tells(acc: Word32, w0: Word32, w1: Word32, w2: Word32, w3: Word32, v3: Word32)
    requires w3 != v3
    ensures MixLane(acc, w0, w1, w2, w3) != MixLane(acc, w0, w1, w2, v3)
  {
    MixLaneIs(acc, w0, w1, w2, w3);
    MixLaneIs(acc, w0, w1, w2, v3);
    if MixLane(acc, w0, w1, w2, w3) == MixLane(acc, w0, w1, w2, v3) {
      var c := acc * 2654435761 + w0 * 2654435761 + w1 * 2246822519 + w2 * 3266489917;
      SameTerm(c, w3 * 668265263, v3 * 668265263, 668265263, 2701016015, 420258189, w3, v3);
    }
  }

  // ---------- One byte of a block ----------

  /** Two buffers that differ in one byte. */
  predicate OneByte(s: Bytes, t: Bytes, i: nat) {
    i < |s| == |t| && s[i] != t[i] && s[..i] == t[..i] && s[i + 1..] == t[i + 1..]
  }

  lemma {:induction false} OtherBytesSame(s: Bytes, t: Bytes, i: nat, j: nat)
    requires OneByte(s, t, i) && j < |s| && j != i
    ensures s[j] == t[j]
  {
    if j < i {
      assert s[j] == s[..i][j];
    } else {
      assert s[j] == s[i + 1..][j - (i + 1)];
    }
  }

  function LaneOf(a: Lanes, j: nat): Word32 {
    if j == 0 then a.l0 else if j == 1 then a.l1 else if j == 2 then a.l2 else a.l3
  }

  predicate OneLane(a: Lanes, b: Lanes, j: nat) {
    j < 4 && LaneOf(a, j) != LaneOf(b, j) && forall k :: 0 <= k < 4 && k != j ==> LaneOf(a, k) == LaneOf(b, k)
  }

  /** The accumulator after one more block. */
  function Mixed(a: Lanes, s: Bytes): Lanes
    requires |s| == 64
  {
    Mix(a, Plane(s, 0), Plane(s, 1), Plane(s, 2), Plane(s, 3))
  }

  /** The word of channel c in lane j: the channel of four pixels, the first in the lowest byte. */
  function ChannelWord(s: Bytes, c: nat, j: nat): (w: Word32)
    requires |s| == 64 && c < 4 && j < 4
  {
    WordsFit([s[16 * j + c], s[16 * j + 4 + c], s[16 * j + 8 + c], s[16 * j + 12 + c]]);
    Word([s[16 * j + c], s[16 * j + 4 + c], s[16 * j + 8 + c], s[16 * j + 12 + c]])
  }

  lemma {:induction false} LaneWordIs(s: Bytes, c: nat, j: nat)
    requires |s| == 64 && c < 4 && j < 4
    ensures LaneWord(Plane(s, c), j) == ChannelWord(s, c, j)
  {
    assert Plane(s, c)[4 * j..4 * j + 4] == [s[16 * j + c], s[16 * j + 4 + c], s[16 * j + 8 + c], s[16 * j + 12 + c]];
  }

  lemma {:induction false} LaneOfMix(a: Lanes, v0: Bytes, v1: Bytes, v2: Bytes, v3: Bytes, j: nat)
    requires |v0| == |v1| == |v2| == |v3| == 16 && j < 4
    ensures LaneOf(Mix(a, v0, v1, v2, v3), j) == MixLane(LaneOf(a, j), LaneWord(v0, j), LaneWord(v1, j), LaneWord(v2, j), LaneWord(v3, j))
  {
    match j
    case 0 =>
    case 1 =>
    case 2 =>
    case _ =>
  }

  lemma {:induction false} MixedLane(a: Lanes, s: Bytes, j: nat, l: Word32, w0: Word32, w1: Word32, w2: Word32, w3: Word32)
    requires |s| == 64 && j < 4 && l == LaneOf(a, j)
    requires w0 == ChannelWord(s, 0, j) && w1 == ChannelWord(s, 1, j) && w2 == ChannelWord(s, 2, j) && w3 == ChannelWord(s, 3, j)
    ensures LaneOf(Mixed(a, s), j) == MixLane(l, w0, w1, w2, w3)
  {
    LaneWordIs(s, 0, j);
    LaneWordIs(s, 1, j);
    LaneWordIs(s, 2, j);
    LaneWordIs(s, 3, j);
    LaneOfMix(a, Plane(s, 0), Plane(s, 1), Plane(s, 2), Plane(s, 3), j);
  }

  lemma {:induction false} WordsDiffer(p: Bytes, q: Bytes)
    requires |p| == |q| == 4 && p != q
    ensures Word(p) != Word(q)
  {
    WordsFit(p);
    WordsFit(q);
  }

  /** A byte is in one word of one lane. */
  lemma {:induction false} ChannelSame(s: Bytes, t: Bytes, i: nat, c: nat, j: nat)
    requires |s| == 64 && OneByte(s, t, i) && c < 4 && j < 4 && (c != i % 4 || j != i / 16)
    ensures ChannelWord(s, c, j) == ChannelWord(t, c, j)
  {
    OtherBytesSame(s, t, i, 16 * j + c);
    OtherBytesSame(s, t, i, 16 * j + 4 + c);
    OtherBytesSame(s, t, i, 16 * j + 8 + c);
    OtherBytesSame(s, t, i, 16 * j + 12 + c);
  }

  lemma {:induction false} ChannelTells(s: Bytes, t: Bytes, i: nat)
    requires |s| == 64 && OneByte(s, t, i)
    ensures ChannelWord(s, i % 4, i / 16) != ChannelWord(t, i % 4, i / 16)
  {
    var c, j, p := i % 4, i / 16, i % 16 / 4;
    assert i == 16 * j + 4 * p + c && p < 4;
    var u := [s[16 * j + c], s[16 * j + 4 + c], s[16 * j + 8 + c], s[16 * j + 12 + c]];
    var v := [t[16 * j + c], t[16 * j + 4 + c], t[16 * j + 8 + c], t[16 * j + 12 + c]];
    assert u[p] == s[i] && v[p] == t[i];
    WordsDiffer(u, v);
  }

  lemma {:induction false} SameLane(a: Lanes, s: Bytes, t: Bytes, i: nat, j: nat)
    requires |s| == 64 && OneByte(s, t, i) && j < 4 && j != i / 16
    ensures LaneOf(Mixed(a, s), j) == LaneOf(Mixed(a, t), j)
  {
    var l, w0, w1, w2, w3 := LaneOf(a, j), ChannelWord(s, 0, j), ChannelWord(s, 1, j), ChannelWord(s, 2, j), ChannelWord(s, 3, j);
    ChannelSame(s, t, i, 0, j);
    ChannelSame(s, t, i, 1, j);
    ChannelSame(s, t, i, 2, j);
    ChannelSame(s, t, i, 3, j);
    MixedLane(a, s, j, l, w0, w1, w2, w3);
    MixedLane(a, t, j, l, w0, w1, w2, w3);
  }

  lemma {:induction false} OneWordTells(l: Word32, w0: Word32, w1: Word32, w2: Word32, w3: Word32,
                                        v0: Word32, v1: Word32, v2: Word32, v3: Word32, c: nat)
    requires (c == 0 <==> w0 != v0) && (c == 1 <==> w1 != v1) && (c == 2 <==> w2 != v2) && (c == 3 <==> w3 != v3) && c < 4
    ensures MixLane(l, w0, w1, w2, w3) != MixLane(l, v0, v1, v2, v3)
  {
    match c
    case 0 => Word0Tells(l, w0, v0, w1, w2, w3);
    case 1 => Word1Tells(l, w0, w1, v1, w2, w3);
    case 2 => Word2Tells(l, w0, w1, w2, v2, w3);
    case _ => Word3Tells(l, w0, w1, w2, w3, v3);
  }

  lemma {:induction false} OneChannel(s: Bytes, t: Bytes, i: nat, c: nat)
    requires |s| == 64 && OneByte(s, t, i) && c < 4
    ensures ChannelWord(s, c, i / 16) != ChannelWord(t, c, i / 16) <==> c == i % 4
  {
    if c == i % 4 {
      ChannelTells(s, t, i);
    } else {
      ChannelSame(s, t, i, c, i / 16);
    }
  }

  lemma {:induction false} LaneTells(a: Lanes, s: Bytes, t: Bytes, i: nat, j: nat)
    requires |s| == 64 && OneByte(s, t, i) && j == i / 16
    ensures LaneOf(Mixed(a, s), j) != LaneOf(Mixed(a, t), j)
  {
    var l := LaneOf(a, j);
    var w0, w1, w2, w3 := ChannelWord(s, 0, j), ChannelWord(s, 1, j), ChannelWord(s, 2, j), ChannelWord(s, 3, j);
    var v0, v1, v2, v3 := ChannelWord(t, 0, j), ChannelWord(t, 1, j), ChannelWord(t, 2, j), ChannelWord(t, 3, j);
    OneChannel(s, t, i, 0);
    OneChannel(s, t, i, 1);
    OneChannel(s, t, i, 2);
    OneChannel(s, t, i, 3);
    OneWordTells(l, w0, w1, w2, w3, v0, v1, v2, v3, i % 4);
    MixedLane(a, s, j, l, w0, w1, w2, w3);
    MixedLane(a, t, j, l, v0, v1, v2, v3);
  }

  lemma {:induction false} BlockTells(a: Lanes, s: Bytes, t: Bytes, i: nat)
    requires |s| == 64 && OneByte(s, t, i)
    ensures OneLane(Mixed(a, s), Mixed(a, t), i / 16)
  {
    LaneTells(a, s, t, i, i / 16);
    forall k | 0 <= k < 4 && k != i / 16 ensures LaneOf(Mixed(a, s), k) == LaneOf(Mixed(a, t), k) {
      SameLane(a, s, t, i, k);
    }
  }

  lemma {:induction false} StaysApart(a: Lanes, b: Lanes, s: Bytes, j: nat)
    requires |s| == 64 && j < 4
    ensures LaneOf(Mixed(a, s), j) == LaneOf(Mixed(b, s), j) <==> LaneOf(a, j) == LaneOf(b, j)
  {
    var w0, w1, w2, w3 := ChannelWord(s, 0, j), ChannelWord(s, 1, j), ChannelWord(s, 2, j), ChannelWord(s, 3, j);
    MixedLane(a, s, j, LaneOf(a, j), w0, w1, w2, w3);
    MixedLane(b, s, j, LaneOf(b, j), w0, w1, w2, w3);
    if LaneOf(a, j) != LaneOf(b, j) {
      AccTells(LaneOf(a, j), LaneOf(b, j), w0, w1, w2, w3);
    }
  }

  /** A difference in one lane stays there. */
  lemma {:induction false} DifferenceStays(a: Lanes, b: Lanes, s: Bytes, j: nat)
    requires |s| == 64 && OneLane(a, b, j)
    ensures OneLane(Mixed(a, s), Mixed(b, s), j)
  {
    forall k | 0 <= k < 4 ensures LaneOf(Mixed(a, s), k) == LaneOf(Mixed(b, s), k) <==> k != j {
      StaysApart(a, b, s, k);
    }
  }

  // ---------- The whole buffer ----------

  lemma {:induction false} OneByteBefore(s: Bytes, t: Bytes, i: nat, n: nat)
    requires OneByte(s, t, i) && n <= |s|
    ensures i < n ==> OneByte(s[..n], t[..n], i) && s[n..] == t[n..]
    ensures i >= n ==> OneByte(s[n..], t[n..], i - n) && s[..n] == t[..n]
  {
    if i < n {
      assert s[..n][..i] == s[..i] == t[..i] == t[..n][..i];
      assert s[..n][i + 1..] == s[i + 1..][..n - (i + 1)] == t[..n][i + 1..];
      assert s[n..] == s[i + 1..][n - (i + 1)..] == t[n..];
    } else {
      assert s[..n] == s[..i][..n] == t[..n];
      assert s[n..][..i - n] == s[..i][n..] == t[n..][..i - n];
      assert s[n..][i - n + 1..] == s[i + 1..] == t[n..][i - n + 1..];
    }
  }

  lemma {:induction false} BlocksTell(s: Bytes, t: Bytes, i: nat, m: nat) returns (j: nat)
    requires |s| == 64 * m && OneByte(s, t, i)
    ensures OneLane(Blocks(s), Blocks(t), j)
    decreases m
  {
    var n := |s| - 64;
    OneByteBefore(s, t, i, n);
    if i < n {
      j := BlocksTell(s[..n], t[..n], i, m - 1);
      DifferenceStays(Blocks(s[..n]), Blocks(t[..n]), s[n..], j);
    } else {
      j := (i - n) / 16;
      BlockTells(Blocks(s[..n]), s[n..], t[n..], i - n);
    }
  }

  lemma {:induction false} FoldTells(a: Lanes, b: Lanes, j: nat)
    requires OneLane(a, b, j)
    ensures Fold(a) != Fold(b)
  {
    assert forall k :: 0 <= k < 4 && k != j ==> LaneOf(a, k) == LaneOf(b, k);
    assert j == 0 || LaneOf(a, 0) == LaneOf(b, 0);
    assert j == 1 || LaneOf(a, 1) == LaneOf(b, 1);
    assert j == 2 || LaneOf(a, 2) == LaneOf(b, 2);
    assert j == 3 || LaneOf(a, 3) == LaneOf(b, 3);
    FoldIs(a);
    FoldIs(b);
    if Fold(a) == Fold(b) {
      FoldsSame(a, b, j);
    }
  }

  lemma {:induction false} FoldsSame(a: Lanes, b: Lanes, j: nat)
    requires j < 4 && (j == 0 || a.l0 == b.l0) && (j == 1 || a.l1 == b.l1) && (j == 2 || a.l2 == b.l2) && (j == 3 || a.l3 == b.l3)
    requires (a.l0 + a.l1 * 2246822519 + a.l2 * 3266489917 + a.l3 * 668265263) % UINT32 ==
             (b.l0 + b.l1 * 2246822519 + b.l2 * 3266489917 + b.l3 * 668265263) % UINT32
    ensures LaneOf(a, j) == LaneOf(b, j)
  {
    match j
    case 0 =>
      SameTerm(a.l1 * 2246822519 + a.l2 * 3266489917 + a.l3 * 668265263, a.l0, b.l0, 1, 1, 0, a.l0, b.l0);
    case 1 =>
      SameTerm(a.l0 + a.l2 * 3266489917 + a.l3 * 668265263, a.l1 * 2246822519, b.l1 * 2246822519,
               2246822519, 3066638151, 1604247758, a.l1, b.l1);
    case 2 =>
      SameTerm(a.l0 + a.l1 * 2246822519 + a.l3 * 668265263, a.l2 * 3266489917, b.l2 * 3266489917,
               3266489917, 2828982549, 2151551417, a.l2, b.l2);
    case _ =>
      SameTerm(a.l0 + a.l1 * 2246822519 + a.l2 * 3266489917, a.l3 * 668265263, b.l3 * 668265263,
               668265263, 2701016015, 420258189, a.l3, b.l3);
  }

  /** A pixel of the tail changes the hash, and a changed hash stays changed. */
  lemma {:induction false} MixTailTells(h: Word32, g: Word32, v: Word32, w: Word32)
    ensures h == g && v != w ==> MixTail(h, v) != MixTail(g, w)
    ensures h != g && v == w ==> MixTail(h, v) != MixTail(g, w)
  {
    MixTailIs(h, v);
    MixTailIs(g, w);
    if h == g && MixTail(h, v) == MixTail(g, w) {
      SameTerm(h * 2654435761, v, w, 1, 1, 0, v, w);
    }
    if v == w && MixTail(h, v) == MixTail(g, w) {
      SameTerm(v, h * 2654435761, g * 2654435761, 2654435761, 244002641, 150801925, h, g);
    }
  }

  lemma {:induction false} TailKeepsApart(h: Word32, g: Word32, s: Bytes)
    requires h != g
    ensures Tail(h, s) != Tail(g, s)
    decreases |s|
  {
    if |s| >= 4 {
      var n := |s| - 4;
      TailKeepsApart(h, g, s[..n]);
      WordsFit(s[n..]);
      MixTailTells(Tail(h, s[..n]), Tail(g, s[..n]), Word(s[n..]), Word(s[n..]));
    }
  }

  lemma {:induction false} TailTells(h: Word32, s: Bytes, t: Bytes, i: nat, m: nat)
    requires |s| == 4 * m && OneByte(s, t, i)
    ensures Tail(h, s) != Tail(h, t)
    decreases m
  {
    var n := |s| - 4;
    OneByteBefore(s, t, i, n);
    WordsFit(s[n..]);
    WordsFit(t[n..]);
    if i < n {
      TailTells(h, s[..n], t[..n], i, m - 1);
    } else {
      assert s[n..][i - n] != t[n..][i - n];
      WordsDiffer(s[n..], t[n..]);
    }
    MixTailTells(Tail(h, s[..n]), Tail(h, t[..n]), Word(s[n..]), Word(t[n..]));
  }

  lemma {:induction false} WholeBlocks(n: nat) returns (m: nat)
    ensures Whole(n) == 64 * m
  {
    if n < 64 {
      m := 0;
    } else {
      m := WholeBlocks(n - 64);
      m := m + 1;
    }
  }

  /** The hash of the whole blocks and of the pixels after them. */
  lemma {:induction false} HashOf(s: Bytes, n: nat, blocks: Bytes, tail: Bytes, h: Word32)
    requires n == Whole(|s|) && blocks == s[..n] && tail == s[n..] && h == Fold(Blocks(blocks))
    ensures Hash(s) == Tail(h, tail)
  {
    HashIs(s, n, Blocks(blocks), h);
  }

  lemma {:induction false} FoldBlocksTell(s: Bytes, t: Bytes, i: nat, m: nat)
    requires |s| == 64 * m && OneByte(s, t, i)
    ensures Fold(Blocks(s)) != Fold(Blocks(t))
  {
    var j := BlocksTell(s, t, i, m);
    FoldTells(Blocks(s), Blocks(t), j);
  }

  lemma {:induction false} PartsTell(b: Bytes, b': Bytes, e: Bytes, e': Bytes, h: Word32, h': Word32, i: nat, m: nat, k: nat)
    requires |b| == 64 * m && |e| == 4 * k && h == Fold(Blocks(b)) && h' == Fold(Blocks(b'))
    requires (OneByte(b, b', i) && e == e') || (b == b' && OneByte(e, e', i))
    ensures Tail(h, e) != Tail(h', e')
  {
    if b == b' {
      TailTells(h, e, e', i, k);
    } else {
      FoldBlocksTell(b, b', i, m);
      TailKeepsApart(h, h', e);
    }
  }

  /** Two buffers of the same number of whole pixels that differ in one byte, in a block or after the last
      one, have different hashes. */
  lemma {:induction false} OneByteTells(s: Bytes, t: Bytes, i: nat, pixels: nat)
    requires |s| == 4 * pixels && OneByte(s, t, i)
    ensures Hash(s) != Hash(t)
  {
    var n := Whole(|s|);
    var m := WholeBlocks(|s|);
    var b, b', e, e' := s[..n], t[..n], s[n..], t[n..];
    OneByteBefore(s, t, i, n);
    HashOf(s, n, b, e, Fold(Blocks(b)));
    HashOf(t, n, b', e', Fold(Blocks(b')));
    PartsTell(b, b', e, e', Fold(Blocks(b)), Fold(Blocks(b')), if i < n then i else i - n, m, pixels - 16 * m);
  }
}
