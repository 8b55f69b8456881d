/** The pixel pass of libsprdshim_ioctl.c: it hashes a buffer and, when asked to, rotates the bytes of
    every pixel in place on the way. */
module ColourProcess {
  import opened Bytes

  const UINT32 := 0x1_0000_0000

  type Word32 = w: int | 0 <= w < 0x1_0000_0000

  // ---------- The permutation ----------

  /** [R, G, B, A] becomes [G, B, R, A]. */
  function Turn(p: Bytes): (q: Bytes)
    requires |p| == 4
    ensures |q| == 4
  {
    [p[1], p[2], p[0], p[3]]
  }

  /** Every pixel of a buffer turned. */
  function Rotated(s: Bytes): (r: Bytes)
    ensures |r| == |s|
    decreases |s|
  {
    if |s| < 4 then s else Rotated(s[..|s| - 4]) + Turn(s[|s| - 4..])
  }

  lemma {:induction false} RotatedAt(s: Bytes, n: nat, k: nat)
    requires |s| == 4 * n && k < n
    ensures Rotated(s)[4 * k..4 * k + 4] == Turn(s[4 * k..4 * k + 4])
    decreases n
  {
    var m := |s| - 4;
    if k < n - 1 {
      RotatedAt(s[..m], n - 1, k);
      assert s[..m][4 * k..4 * k + 4] == s[4 * k..4 * k + 4];
      assert Rotated(s)[4 * k..4 * k + 4] == Rotated(s[..m])[4 * k..4 * k + 4];
    }
  }

  lemma {:induction false} RotatedMore(s: Bytes, p: Bytes)
    requires |p| == 4
    ensures Rotated(s + p) == Rotated(s) + Turn(p)
  {
    assert (s + p)[..|s|] == s && (s + p)[|s|..] == p;
  }

  lemma {:induction false} RotatedSplit(s: Bytes, t: Bytes, n: nat)
    requires |t| == 4 * n
    ensures Rotated(s + t) == Rotated(s) + Rotated(t)
    decreases n
  {
    if n == 0 {
      assert s + t == s;
    } else {
      var u, p := t[..4 * n - 4], t[4 * n - 4..];
      assert s + t == (s + u) + p;
      RotatedMore(s + u, p);
      RotatedSplit(s, u, n - 1);
    }
  }

  /** The permutation is a three-cycle: done three times it is undone. */
  lemma {:induction false} ThreeTurns(s: Bytes)
    ensures Rotated(Rotated(Rotated(s))) == s
    decreases |s|
  {
    if |s| >= 4 {
      var u, p := s[..|s| - 4], s[|s| - 4..];
      ThreeTurns(u);
      RotatedMore(Rotated(u), Turn(p));
      RotatedMore(Rotated(Rotated(u)), Turn(Turn(p)));
      assert s == u + p;
    }
  }

  // ---------- Sixteen pixels at a time ----------

  /** One channel of sixteen pixels: what vld4q_u8 puts into a register. */
  function Plane(s: Bytes, c: nat): (r: Bytes)
    requires |s| == 64 && c < 4
    ensures |r| == 16 && forall k :: 0 <= k < 16 ==> r[k] == s[4 * k + c]
  {
    seq(16, k requires 0 <= k < 16 => s[4 * k + c])
  }

  predicate Interleaved(s: Bytes, v0: Bytes, v1: Bytes, v2: Bytes, v3: Bytes)
    requires |s| == 64 && |v0| == |v1| == |v2| == |v3| == 16
  {
    forall k :: 0 <= k < 16 ==> s[4 * k] == v0[k] && s[4 * k + 1] == v1[k] && s[4 * k + 2] == v2[k] && s[4 * k + 3] == v3[k]
  }

  lemma {:induction false} PixelsApart(s: Bytes, t: Bytes, k: nat)
    requires |s| == |t| && 4 * k + 4 <= |s| && s[4 * k..4 * k + 4] == t[4 * k..4 * k + 4]
    ensures s[4 * k] == t[4 * k] && s[4 * k + 1] == t[4 * k + 1] && s[4 * k + 2] == t[4 * k + 2] && s[4 * k + 3] == t[4 * k + 3]
  {
    assert s[4 * k..4 * k + 4][0] == t[4 * k..4 * k + 4][0] && s[4 * k..4 * k + 4][1] == t[4 * k..4 * k + 4][1];
    assert s[4 * k..4 * k + 4][2] == t[4 * k..4 * k + 4][2] && s[4 * k..4 * k + 4][3] == t[4 * k..4 * k + 4][3];
  }

  lemma {:induction false} ByPixel(s: Bytes, t: Bytes)
    requires |s| == |t| == 64
    requires forall k :: 0 <= k < 16 ==>
               s[4 * k] == t[4 * k] && s[4 * k + 1] == t[4 * k + 1] && s[4 * k + 2] == t[4 * k + 2] && s[4 * k + 3] == t[4 * k + 3]
    ensures s == t
  {
    forall i | 0 <= i < 64 ensures s[i] == t[i] {
      var k := i / 4;
      assert i == 4 * k || i == 4 * k + 1 || i == 4 * k + 2 || i == 4 * k + 3;
    }
  }

  /** Storing the channels in the order G, B, R, A is turning every pixel. */
  lemma {:induction false} BlockIsRotated(s: Bytes, t: Bytes)
    requires |s| == |t| == 64 && Interleaved(t, Plane(s, 1), Plane(s, 2), Plane(s, 0), Plane(s, 3))
    ensures t == Rotated(s)
  {
    forall k | 0 <= k < 16
      ensures t[4 * k] == Rotated(s)[4 * k] && t[4 * k + 1] == Rotated(s)[4 * k + 1] &&
              t[4 * k + 2] == Rotated(s)[4 * k + 2] && t[4 * k + 3] == Rotated(s)[4 * k + 3]
    {
      RotatedAt(s, 16, k);
      var p := s[4 * k..4 * k + 4];
      assert p == [s[4 * k], s[4 * k + 1], s[4 * k + 2], s[4 * k + 3]];
      assert t[4 * k..4 * k + 4] == [t[4 * k], t[4 * k + 1], t[4 * k + 2], t[4 * k + 3]];
      PixelsApart(t, Rotated(s), k);
    }
    ByPixel(t, Rotated(s));
  }

  lemma {:induction false} PlanesOf(s: Bytes, v0: Bytes, v1: Bytes, v2: Bytes, v3: Bytes)
    requires |s| == 64 && |v0| == |v1| == |v2| == |v3| == 16 && Interleaved(s, v0, v1, v2, v3)
    ensures Plane(s, 0) == v0 && Plane(s, 1) == v1 && Plane(s, 2) == v2 && Plane(s, 3) == v3
  {}

  // ---------- The hash ----------

  datatype Lanes = Lanes(l0: Word32, l1: Word32, l2: Word32, l3: Word32)

  /** Arithmetic on uint32_t. */
  function Wrap(n: nat): Word32 {
    if n < UINT32 then n else Wrap(n - UINT32)
  }

  lemma {:induction false} WrapIsModulo(n: nat)
    ensures Wrap(n) == n % UINT32
    decreases n
  {
    if n >= UINT32 {
      WrapIsModulo(n - UINT32);
    }
  }

  /** One lane: multiply and add the four channels in turn, modulo 2^32. */
  function MixLane(acc: nat, w0: nat, w1: nat, w2: nat, w3: nat): Word32 {
    Wrap(Wrap(Wrap(Wrap(Wrap(acc * 2654435761) + Wrap(w0 * 0x9E3779B1)) + Wrap(w1 * 0x85EBCA77)) + Wrap(w2 * 0xC2B2AE3D)) +
         Wrap(w3 * 0x27D4EB2F))
  }

  function LaneWord(v: Bytes, j: nat): nat
    requires |v| == 16 && j < 4
  {
    Word(v[4 * j..4 * j + 4])
  }

  function Mix(a: Lanes, v0: Bytes, v1: Bytes, v2: Bytes, v3: Bytes): Lanes
    requires |v0| == |v1| == |v2| == |v3| == 16
  {
    Lanes(MixLane(a.l0, LaneWord(v0, 0), LaneWord(v1, 0), LaneWord(v2, 0), LaneWord(v3, 0)),
          MixLane(a.l1, LaneWord(v0, 1), LaneWord(v1, 1), LaneWord(v2, 1), LaneWord(v3, 1)),
          MixLane(a.l2, LaneWord(v0, 2), LaneWord(v1, 2), LaneWord(v2, 2), LaneWord(v3, 2)),
          MixLane(a.l3, LaneWord(v0, 3), LaneWord(v1, 3), LaneWord(v2, 3), LaneWord(v3, 3)))
  }

  function Fold(a: Lanes): Word32 {
    Wrap(Wrap(Wrap(a.l0 + Wrap(a.l1 * 2246822519)) + Wrap(a.l2 * 3266489917)) + Wrap(a.l3 * 668265263))
  }

  function MixTail(h: nat, v: nat): Word32 {
    Wrap(Wrap(h * 2654435761) + v)
  }

  /** The accumulator after all whole blocks. */
  function Blocks(s: Bytes): Lanes
    decreases |s|
  {
    if |s| < 64 then Lanes(0, 0, 0, 0)
    else
      var n := |s| - 64;
      Mix(Blocks(s[..n]), Plane(s[n..], 0), Plane(s[n..], 1), Plane(s[n..], 2), Plane(s[n..], 3))
  }

  /** The pixels after the last whole block. */
  function Tail(h: Word32, s: Bytes): Word32
    decreases |s|
  {
    if |s| < 4 then h else MixTail(Tail(h, s[..|s| - 4]), Word(s[|s| - 4..]))
  }

  /** The part of a buffer that whole blocks cover. */
  function Whole(n: nat): (m: nat)
    ensures m <= n < m + 64
  {
    if n < 64 then 0 else 64 + Whole(n - 64)
  }

  /** The hash of a buffer that process computes without rotating. */
  function Hash(s: Bytes): Word32 {
    var n := Whole(|s|);
    Tail(Fold(Blocks(s[..n])), s[n..])
  }

  // ---------- A pixel as a 32-bit word ----------

  function TurnWord(v: nat): nat
    requires v < 0x1_0000_0000
  {
    v / 0x100_0000 * 0x100_0000 + v / 0x100 % 0x1_0000 + v % 0x100 * 0x1_0000
  }

  /** The masks and shifts of the tail loop do the same to a pixel as the registers do. */
  lemma {:induction false} TurnWordIsTurn(p: Bytes)
    requires |p| == 4
    ensures Word(p) < 0x1_0000_0000 && TurnWord(Word(p)) < 0x1_0000_0000
    ensures Le32(TurnWord(Word(p))) == Turn(p) && Word(Turn(p)) == TurnWord(Word(p))
  {
    WordsFit(p);
    WordsFit(Turn(p));
    var b0: int, b1: int, b2: int, b3: int := p[0], p[1], p[2], p[3];
    LowByte(Word(p), b0, b1 + 0x100 * b2 + 0x1_0000 * b3);
    assert Word(p) / 0x100_0000 == b3;
    assert Word(p) / 0x100 == b1 + 0x100 * b2 + 0x1_0000 * b3;
    assert Word(p) / 0x100 % 0x1_0000 == b1 + 0x100 * b2;
  }

  // ---------- process ----------

  function Left(s: Bytes, rotate: bool): (t: Bytes)
    ensures |t| == |s|
  {
    if rotate then Rotated(s) else s
  }

  /** vst4q_u8. */
  method Store(b: array<Byte>, at: nat, v0: Bytes, v1: Bytes, v2: Bytes, v3: Bytes)
    requires at + 64 <= b.Length && |v0| == |v1| == |v2| == |v3| == 16
    modifies b
    ensures Interleaved(b[at..at + 64], v0, v1, v2, v3)
    ensures b[..at] == old(b[..at]) && b[at + 64..] == old(b[at + 64..])
  {
    for k := 0 to 16
      invariant forall j :: 0 <= j < k ==> b[at + 4 * j] == v0[j] && b[at + 4 * j + 1] == v1[j] &&
                                           b[at + 4 * j + 2] == v2[j] && b[at + 4 * j + 3] == v3[j]
      invariant b[..at] == old(b[..at]) && b[at + 64..] == old(b[at + 64..])
    {
      b[at + 4 * k], b[at + 4 * k + 1] := v0[k], v1[k];
      b[at + 4 * k + 2], b[at + 4 * k + 3] := v2[k], v3[k];
    }
  }

  /** The body of the block loop. */
  method ProcessBlock(b: array<Byte>, at: nat, rotate: bool, acc: Lanes) returns (r: Lanes)
    requires at + 64 <= b.Length
    modifies b
    ensures b[at..at + 64] == Left(old(b[at..at + 64]), rotate)
    ensures b[..at] == old(b[..at]) && b[at + 64..] == old(b[at + 64..])
    ensures var t := b[at..at + 64]; r == Mix(acc, Plane(t, 0), Plane(t, 1), Plane(t, 2), Plane(t, 3))
  {
    ghost var was := b[at..at + 64];
    var s0, s1, s2, s3 := Plane(b[at..at + 64], 0), Plane(b[at..at + 64], 1), Plane(b[at..at + 64], 2), Plane(b[at..at + 64], 3);
    if rotate {
      s0, s1, s2 := s1, s2, s0;
      Store(b, at, s0, s1, s2, s3);
      BlockIsRotated(was, b[at..at + 64]);
      PlanesOf(b[at..at + 64], s0, s1, s2, s3);
    }
    r := Mix(acc, s0, s1, s2, s3);
  }

  /** The body of the tail loop. */
  method ProcessPixel(b: array<Byte>, at: nat, rotate: bool, h: Word32) returns (r: Word32)
    requires at + 4 <= b.Length
    modifies b
    ensures b[at..at + 4] == if rotate then Turn(old(b[at..at + 4])) else old(b[at..at + 4])
    ensures b[..at] == old(b[..at]) && b[at + 4..] == old(b[at + 4..])
    ensures r == MixTail(h, Word(b[at..at + 4]))
  {
    ghost var was := b[at..at + 4];
    TurnWordIsTurn(was);
    var v := Word(b[at..at + 4]);
    if rotate {
      v := TurnWord(v);
      var p := Le32(v);
      b[at], b[at + 1], b[at + 2], b[at + 3] := p[0], p[1], p[2], p[3];
      assert b[at..at + 4] == p;
    }
    r := MixTail(h, v);
  }

  lemma {:induction false} BlocksMore(s: Bytes, t: Bytes)
    requires |t| == 64
    ensures Blocks(s + t) == Mix(Blocks(s), Plane(t, 0), Plane(t, 1), Plane(t, 2), Plane(t, 3))
  {
    assert (s + t)[..|s|] == s && (s + t)[|s|..] == t;
  }

  lemma {:induction false} TailMore(h: Word32, s: Bytes, p: Bytes)
    requires |p| == 4
    ensures Tail(h, s + p) == MixTail(Tail(h, s), Word(p))
  {
    assert (s + p)[..|s|] == s && (s + p)[|s|..] == p;
  }

  lemma {:induction false} LeftMore(s: Bytes, t: Bytes, n: nat, rotate: bool)
    requires |t| == 4 * n
    ensures Left(s + t, rotate) == Left(s, rotate) + Left(t, rotate)
  {
    if rotate {
      RotatedSplit(s, t, n);
    }
  }

  lemma {:induction false} LeftPixel(p: Bytes, rotate: bool)
    requires |p| == 4
    ensures Left(p, rotate) == if rotate then Turn(p) else p
  {
    if rotate {
      assert [] + p == p;
      RotatedMore([], p);
    }
  }

  lemma {:induction false} WholeIs(n: nat, m: nat, k: nat)
    requires m <= n < m + 64 && m == 64 * k
    ensures m == Whole(n)
    decreases k
  {
    if k > 0 {
      WholeIs(n - 64, m - 64, k - 1);
    }
  }

  /** The part of a buffer that is done: what it holds now follows from what it held. */
  ghost predicate Done(now: Bytes, was: Bytes, at: nat, rotate: bool) {
    at <= |now| == |was| && now[..at] == Left(was[..at], rotate) && now[at..] == was[at..]
  }

  lemma {:induction false} DoneMore(was: Bytes, now: Bytes, next: Bytes, at: nat, n: nat, rotate: bool)
    requires Done(now, was, at, rotate) && at + 4 * n <= |now| == |next|
    requires next[at..at + 4 * n] == Left(now[at..at + 4 * n], rotate)
    requires next[..at] == now[..at] && next[at + 4 * n..] == now[at + 4 * n..]
    ensures Done(next, was, at + 4 * n, rotate)
    ensures next[..at + 4 * n] == now[..at] + next[at..at + 4 * n]
  {
    var end := at + 4 * n;
    assert now[at..end] == now[at..][..4 * n] == was[at..][..4 * n] == was[at..end];
    assert now[end..] == now[at..][4 * n..] == was[at..][4 * n..] == was[end..];
    assert was[..end] == was[..at] + was[at..end];
    LeftMore(was[..at], was[at..end], n, rotate);
    assert next[..end] == next[..at] + next[at..end];
  }

  /** One turn of the block loop. */
  method BlockTurn(b: array<Byte>, at: nat, rotate: bool, acc: Lanes, ghost was: Bytes) returns (r: Lanes)
    requires at + 64 <= b.Length && Done(b[..], was, at, rotate) && acc == Blocks(b[..at])
    modifies b
    ensures Done(b[..], was, at + 64, rotate) && r == Blocks(b[..at + 64])
  {
    ghost var now := b[..];
    r := ProcessBlock(b, at, rotate, acc);
    DoneMore(was, now, b[..], at, 16, rotate);
    BlocksMore(now[..at], b[at..at + 64]);
  }

  /** The block loop of process. */
  method ProcessBlocks(b: array<Byte>, npix: nat, rotate: bool) returns (i: nat, acc: Lanes)
    requires 4 * npix <= b.Length
    modifies b
    ensures i <= npix && 4 * i == Whole(4 * npix) && Done(b[..], old(b[..]), 4 * i, rotate) && acc == Blocks(b[..4 * i])
  {
    ghost var was, turns := b[..], 0;
    i, acc := 0, Lanes(0, 0, 0, 0);
    while i + 16 <= npix
      invariant i <= npix && i == 16 * turns && Done(b[..], was, 4 * i, rotate) && acc == Blocks(b[..4 * i])
    {
      acc := BlockTurn(b, 4 * i, rotate, acc, was);
      i := i + 16;
      turns := turns + 1;
    }
    WholeIs(4 * npix, 4 * i, turns);
  }

  /** The tail loop has come to this byte: the blocks before the tail are as they were left, the tail is
      turned so far and hashed, and the rest is untouched. */
  ghost predicate TailDone(now: Bytes, blocks: Bytes, tail: Bytes, rotate: bool, start: Word32, at: nat, h: Word32) {
    at <= |tail| && now == blocks + (Left(tail[..at], rotate) + tail[at..]) && h == Tail(start, Left(tail[..at], rotate))
  }

  lemma {:induction false} TailStep(tail: Bytes, at: nat, rotate: bool, start: Word32)
    requires at + 4 <= |tail|
    ensures var p := Left(tail[at..at + 4], rotate);
            Left(tail[..at + 4], rotate) == Left(tail[..at], rotate) + p &&
            Tail(start, Left(tail[..at + 4], rotate)) == MixTail(Tail(start, Left(tail[..at], rotate)), Word(p))
  {
    assert tail[..at + 4] == tail[..at] + tail[at..at + 4];
    LeftMore(tail[..at], tail[at..at + 4], 1, rotate);
    TailMore(start, Left(tail[..at], rotate), Left(tail[at..at + 4], rotate));
  }

  lemma {:induction false} PixelReplaced(now: Bytes, next: Bytes, blocks: Bytes, done: Bytes, p: Bytes, q: Bytes, rest: Bytes, k: nat)
    requires now == blocks + (done + (p + rest)) && |p| == 4 && |q| == 4 && k == |blocks| + |done|
    ensures |now| >= k + 4 && now[k..k + 4] == p
    ensures |next| == |now| && next[k..k + 4] == q && next[..k] == now[..k] && next[k + 4..] == now[k + 4..] ==>
              next == blocks + (done + q + rest)
  {
    assert now[k..k + 4] == p && now[..k] == blocks + done && now[k + 4..] == rest;
    if |next| == |now| && next[k..k + 4] == q && next[..k] == now[..k] && next[k + 4..] == now[k + 4..] {
      assert next == next[..k] + next[k..k + 4] + next[k + 4..];
    }
  }

  /** One turn of the tail loop. */
  method TailTurn(b: array<Byte>, k: nat, rotate: bool, h: Word32,
                  ghost blocks: Bytes, ghost tail: Bytes, ghost start: Word32, ghost at: nat)
    returns (r: Word32)
    requires at + 4 <= |tail| && k == |blocks| + at && TailDone(b[..], blocks, tail, rotate, start, at, h)
    modifies b
    ensures TailDone(b[..], blocks, tail, rotate, start, at + 4, r)
  {
    ghost var now, done := b[..], Left(tail[..at], rotate);
    ghost var p := tail[at..at + 4];
    assert tail[at..] == p + tail[at + 4..];
    PixelReplaced(now, now, blocks, done, p, p, tail[at + 4..], k);
    r := ProcessPixel(b, k, rotate, h);
    LeftPixel(p, rotate);
    PixelReplaced(now, b[..], blocks, done, p, Left(p, rotate), tail[at + 4..], k);
    TailStep(tail, at, rotate, start);
  }

  /** The tail loop of process. */
  method ProcessTail(b: array<Byte>, from: nat, npix: nat, rotate: bool, start: Word32, ghost blocks: Bytes, ghost tail: Bytes)
    returns (h: Word32)
    requires from <= npix && 4 * npix <= b.Length && |blocks| == 4 * from && b[..] == blocks + tail
    modifies b
    ensures TailDone(b[..], blocks, tail, rotate, start, 4 * (npix - from), h)
  {
    h := start;
    var i := from;
    ghost var at := 0;
    assert Left(tail[..0], rotate) + tail[0..] == tail;
    while i < npix
      invariant i <= npix && at == 4 * (i - from) && TailDone(b[..], blocks, tail, rotate, start, at, h)
    {
      h := TailTurn(b, 4 * i, rotate, h, blocks, tail, start, at);
      i, at := i + 1, at + 4;
    }
  }

  lemma {:induction false} Assembled(now: Bytes, was: Bytes, blocks: Bytes, left: Bytes, m: nat, n: nat, k: nat, rotate: bool)
    requires m <= n <= |was| && n - m == 4 * k && |blocks| == m && blocks == Left(was[..m], rotate)
    requires left == Left(was[m..][..n - m], rotate) && now == blocks + (left + was[m..][n - m..])
    ensures |now| == |was| && now[..n] == Left(was[..n], rotate) && now[n..] == was[n..]
    ensures now[..n][..m] == blocks && now[..n][m..] == left
  {
    assert was[..n] == was[..m] + was[m..][..n - m];
    LeftMore(was[..m], was[m..][..n - m], k, rotate);
    assert now[..n] == blocks + left;
  }

  lemma {:induction false} HashIs(s: Bytes, n: nat, a: Lanes, h: Word32)
    requires n == Whole(|s|) && a == Blocks(s[..n]) && h == Fold(a)
    ensures Hash(s) == Tail(h, s[n..])
  {}

  lemma {:induction false} Finished(now: Bytes, was: Bytes, blocks: Bytes, tail: Bytes, m: nat, n: nat, k: nat, rotate: bool,
                                    acc: Lanes, start: Word32, h: Word32)
    requires m == Whole(n) && n <= |was| && n - m == 4 * k && |blocks| == m && blocks == Left(was[..m], rotate)
    requires acc == Blocks(blocks) && start == Fold(acc) && tail == was[m..]
    requires TailDone(now, blocks, tail, rotate, start, n - m, h)
    ensures |now| == |was| && now[..n] == Left(was[..n], rotate) && now[n..] == was[n..] && h == Hash(now[..n])
  {
    Assembled(now, was, blocks, Left(tail[..n - m], rotate), m, n, k, rotate);
    HashIs(now[..n], m, acc, start);
  }

  lemma {:induction false} SplitAt(now: Bytes, was: Bytes, m: nat)
    requires m <= |now| == |was| && now[m..] == was[m..]
    ensures now == now[..m] + was[m..]
  {}

  /** process after the block loop. */
  method ProcessRest(b: array<Byte>, i: nat, npix: nat, rotate: bool, acc: Lanes, ghost now: Bytes, ghost was: Bytes, ghost n: nat)
    returns (h: Word32)
    requires i <= npix && n == 4 * npix <= b.Length && 4 * i == Whole(n) && now == b[..]
    requires Done(now, was, 4 * i, rotate) && acc == Blocks(now[..4 * i])
    modifies b
    ensures b[..n] == Left(was[..n], rotate) && b[n..] == was[n..] && h == Hash(b[..n])
  {
    var start := Fold(acc);
    ghost var m := 4 * i;
    ghost var blocks, tail := now[..m], was[m..];
    SplitAt(now, was, m);
    h := ProcessTail(b, i, npix, rotate, start, blocks, tail);
    Finished(b[..], was, blocks, tail, m, n, npix - i, rotate, acc, start, h);
  }

  /** process: without rotate it hashes the buffer and leaves it alone; with rotate it turns every pixel,
      whatever the number of pixels, and returns the hash of what it leaves. */
  method Process(b: array<Byte>, npix: nat, rotate: bool) returns (h: Word32)
    requires 4 * npix <= b.Length
    modifies b
    ensures b[..4 * npix] == Left(old(b[..4 * npix]), rotate) && b[4 * npix..] == old(b[4 * npix..])
    ensures h == Hash(b[..4 * npix])
  {
    ghost var was := b[..];
    var i, acc := ProcessBlocks(b, npix, rotate);
    h := ProcessRest(b, i, npix, rotate, acc, b[..], was, 4 * npix);
    assert was[..4 * npix] == old(b[..4 * npix]);
  }
}
