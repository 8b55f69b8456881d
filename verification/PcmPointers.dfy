/** The 32-bit pointer arithmetic of tinyalsa's mmap ring (pcm.c) against unbounded frame counters. */
module PcmPointers {
  import opened Arithmetic
  import opened Options

  const INT_MAX := 0x7FFF_FFFF
  const UINT_SPAN := 0x1_0000_0000

  /** Conversion of an integer to unsigned int, and of an unsigned int to int. */
  function Unsigned(x: int): (u: nat)
    ensures u < UINT_SPAN
    ensures 0 <= x < UINT_SPAN ==> u == x
  {
    x % UINT_SPAN
  }

  function Signed(u: nat): int {
    if u <= INT_MAX then u else u - UINT_SPAN
  }

  // ---------- The boundary ----------

  /** The doubling loop of pcm_open. A buffer of no frames would keep it running for ever. */
  method ComputeBoundary(bufferSize: nat) returns (boundary: nat)
    requires 0 < bufferSize <= INT_MAX
    ensures exists k :: boundary == bufferSize * Pow2(k)
    ensures boundary > 0 && INT_MAX - bufferSize < 2 * boundary
    ensures Geometry(bufferSize, boundary) <==> bufferSize <= INT_MAX / 3
  {
    boundary := bufferSize;
    ghost var k := 0;
    assert boundary == bufferSize * Pow2(k);
    while Unsigned(boundary * 2) <= Unsigned(INT_MAX - bufferSize)
      invariant boundary == bufferSize * Pow2(k) && boundary > 0
      invariant boundary == bufferSize || 2 * bufferSize <= boundary <= INT_MAX - bufferSize
      decreases INT_MAX - boundary
    {
      assert bufferSize * Pow2(k + 1) == 2 * (bufferSize * Pow2(k));
      boundary := boundary * 2;
      k := k + 1;
    }
    MultipleMod(0, bufferSize, Pow2(k));
  }

  // ---------- The pointers and the counters they stand for ----------

  /** What pcm_open leaves for a buffer of at most INT_MAX/3 frames. */
  ghost predicate Geometry(bufferSize: nat, boundary: nat) {
    0 < bufferSize && boundary % bufferSize == 0 && 2 * bufferSize <= boundary && boundary + bufferSize <= INT_MAX
  }

  /** The kernel wraps at the boundary, the library only beyond it: its pointer is 0 just once. */
  function HwPtr(h: nat, boundary: nat): nat
    requires boundary > 0
  {
    h % boundary
  }

  function ApplPtr(a: nat, boundary: nat): nat
    requires boundary > 0
  {
    if a == 0 then 0 else (a - 1) % boundary + 1
  }

  /** pcm_mmap_playback_avail. */
  function PlaybackAvail(hw: nat, appl: nat, bufferSize: nat, boundary: nat): int {
    var avail := Signed(Unsigned(hw + bufferSize - appl));
    if avail < 0 then Signed(Unsigned(avail + boundary))
    else if avail > Signed(boundary) then Signed(Unsigned(avail - boundary))
    else avail
  }

  /** pcm_mmap_capture_avail. */
  function CaptureAvail(hw: nat, appl: nat, boundary: nat): int {
    var avail := Signed(Unsigned(hw - appl));
    if avail < 0 then Signed(Unsigned(avail + boundary)) else avail
  }

  /** pcm_mmap_appl_forward. */
  function ApplForward(appl: nat, frames: nat, boundary: nat): nat {
    var next := Unsigned(appl + frames);
    if next > boundary then next - boundary else next
  }

  lemma {:induction false} ApplForwardAdds(a: nat, frames: nat, boundary: nat)
    requires boundary > 0 && frames <= boundary && boundary + frames <= INT_MAX
    ensures ApplForward(ApplPtr(a, boundary), frames, boundary) == ApplPtr(a + frames, boundary)
  {
    if frames > 0 {
      var appl := ApplPtr(a, boundary);
      var r := appl + frames - 1;
      if a == 0 {
        DivisionIsUnique(r, boundary, 0, r);
      } else if r < boundary {
        AddMod(a - 1, boundary, frames);
      } else {
        assert a + frames - 1 == boundary * ((a - 1) / boundary + 1) + (r - boundary);
        DivisionIsUnique(a + frames - 1, boundary, (a - 1) / boundary + 1, r - boundary);
      }
    }
  }

  /** The two pointers differ by the distance of the counters, give or take one turn. */
  lemma {:induction false} PointerDistance(a: nat, h: nat, boundary: nat, x: int) returns (turns: int)
    requires boundary > 0 && 0 <= x + (h - a) < boundary && 0 <= x < boundary
    ensures HwPtr(h, boundary) - ApplPtr(a, boundary) == (h - a) + boundary * turns
    ensures turns in {-1, 0, 1}
  {
    var appl := ApplPtr(a, boundary);
    var whole := if a == 0 then 0 else (a - 1) / boundary;
    assert a == boundary * whole + appl;
    assert h == boundary * (h / boundary) + h % boundary;
    turns := whole - h / boundary;
    assert boundary * turns == boundary * whole - boundary * (h / boundary);
    MultiplesApart(boundary, turns);
  }

  /** The one state in which playback space is misread. */
  ghost predicate FullAcrossBoundary(a: nat, h: nat, bufferSize: nat, boundary: nat)
    requires boundary > 0
  {
    a == h + bufferSize && HwPtr(h, boundary) + bufferSize > boundary
  }

  /** Playback space is exact, except that a full ring lying across the boundary reads as the boundary. */
  lemma {:induction false} PlaybackAvailExact(a: nat, h: nat, bufferSize: nat, boundary: nat)
    requires Geometry(bufferSize, boundary)
    requires 0 <= h + bufferSize - a < boundary
    ensures var avail := PlaybackAvail(HwPtr(h, boundary), ApplPtr(a, boundary), bufferSize, boundary);
            if FullAcrossBoundary(a, h, bufferSize, boundary) then avail == boundary
            else avail == h + bufferSize - a
  {
    var turns := PointerDistance(a, h, boundary, bufferSize);
    PlaybackAvailOfDifference(HwPtr(h, boundary), ApplPtr(a, boundary), bufferSize, boundary);
    if a == h + bufferSize {
      FullRing(a, h, bufferSize, boundary, turns);
    }
  }

  lemma {:induction false} PlaybackAvailOfDifference(hw: nat, appl: nat, bufferSize: nat, boundary: nat)
    requires Geometry(bufferSize, boundary) && hw < boundary && appl <= boundary
    ensures PlaybackAvail(hw, appl, bufferSize, boundary) == (
              var raw := hw + bufferSize - appl;
              if raw < 0 then raw + boundary else if raw > boundary then raw - boundary else raw)
  {
    var raw := hw + bufferSize - appl;
    SignedRoundTrip(raw);
    if raw < 0 {
      SignedRoundTrip(raw + boundary);
    }
  }

  lemma {:induction false} SignedRoundTrip(x: int)
    requires -INT_MAX <= x <= INT_MAX
    ensures Signed(Unsigned(x)) == x
  {}

  lemma {:induction false} FullRing(a: nat, h: nat, bufferSize: nat, boundary: nat, turns: int)
    requires Geometry(bufferSize, boundary) && a == h + bufferSize
    requires HwPtr(h, boundary) - ApplPtr(a, boundary) == boundary * turns - bufferSize
    ensures turns == 1 <==> HwPtr(h, boundary) + bufferSize > boundary
  {
    var hw := HwPtr(h, boundary);
    if hw + bufferSize > boundary {
      assert a - 1 == boundary * (h / boundary + 1) + (hw + bufferSize - 1 - boundary);
      DivisionIsUnique(a - 1, boundary, h / boundary + 1, hw + bufferSize - 1 - boundary);
      assert boundary * turns == boundary;
      assert boundary * (turns - 1) == 0;
    } else {
      AddMod(h, boundary, bufferSize - 1);
      assert boundary * turns == 0;
    }
  }

  /** Captured frames are counted exactly across every wrap. */
  lemma {:induction false} CaptureAvailExact(a: nat, h: nat, bufferSize: nat, boundary: nat)
    requires Geometry(bufferSize, boundary)
    requires 0 <= h - a < boundary
    ensures CaptureAvail(HwPtr(h, boundary), ApplPtr(a, boundary), boundary) == h - a
  {
    var turns := PointerDistance(a, h, boundary, 0);
    var raw := HwPtr(h, boundary) - ApplPtr(a, boundary);
    SignedRoundTrip(raw);
    if raw < 0 {
      SignedRoundTrip(raw + boundary);
    }
  }

  /** The library takes the ring cell from the wrapped pointer; it is the counter's own cell. */
  lemma {:induction false} RingOffset(a: nat, bufferSize: nat, boundary: nat)
    requires Geometry(bufferSize, boundary)
    ensures ApplPtr(a, boundary) % bufferSize == a % bufferSize
  {
    var m := boundary / bufferSize;
    assert boundary == bufferSize * m;
    if a > 0 {
      var k := (a - 1) / boundary;
      var appl := ApplPtr(a, boundary);
      assert a == appl + boundary * k;
      assert boundary * k == bufferSize * (m * k) by { MultiplyAssociates(bufferSize, m, k); }
      MultipleMod(appl, bufferSize, m * k);
    }
  }

  /** The misreading needs a wrap: it cannot happen before the counter has passed the boundary. */
  lemma {:induction false} NoMisreadBeforeFirstWrap(a: nat, h: nat, bufferSize: nat, boundary: nat)
    requires Geometry(bufferSize, boundary) && h <= a <= boundary
    ensures !FullAcrossBoundary(a, h, bufferSize, boundary)
  {
    if a == h + bufferSize {
      DivisionIsUnique(h, boundary, 0, h);
    }
  }

  // ---------- The misreading, reached ----------

  datatype Move = Written | Played

  /** The counters after single frames written and played, as long as the ring has a frame or room for it. */
  function Counters(moves: seq<Move>, bufferSize: nat): Option<(nat, nat)>
    decreases |moves|
  {
    if moves == [] then Some((0, 0))
    else
      match Counters(moves[..|moves| - 1], bufferSize)
      case None => None
      case Some((a, h)) =>
        match moves[|moves| - 1]
        case Written => if a < h + bufferSize then Some((a + 1, h)) else None
        case Played => if h < a then Some((a, h + 1)) else None
  }

  lemma {:induction false} OneMove(moves: seq<Move>, move: Move, bufferSize: nat, a: nat, h: nat)
    requires Counters(moves, bufferSize) == Some((a, h))
    ensures move == Written && a < h + bufferSize ==> Counters(moves + [move], bufferSize) == Some((a + 1, h))
    ensures move == Played && h < a ==> Counters(moves + [move], bufferSize) == Some((a, h + 1))
  {
    assert (moves + [move])[..|moves|] == moves;
  }

  /** A stream that is kept full gets to every counter. */
  lemma {:induction false} KeptFull(bufferSize: nat, a: nat, h: nat) returns (moves: seq<Move>)
    requires bufferSize > 0 && (if h == 0 then a <= bufferSize else a == h + bufferSize)
    ensures Counters(moves, bufferSize) == Some((a, h))
    decreases a
  {
    moves := [];
    if h > 0 {
      moves := KeptFull(bufferSize, a - 1, h - 1);
      OneMove(moves, Played, bufferSize, a - 1, h - 1);
      OneMove(moves + [Played], Written, bufferSize, a - 1, h);
      moves := moves + [Played] + [Written];
    } else if a > 0 {
      moves := KeptFull(bufferSize, a - 1, 0);
      OneMove(moves, Written, bufferSize, a - 1, 0);
      moves := moves + [Written];
    }
  }

  /** For every buffer and the boundary that goes with it: the misread state exists if and only if the
      buffer has at least two frames. */
  lemma {:induction false} MisreadIffTwoFrames(bufferSize: nat, boundary: nat)
    requires Geometry(bufferSize, boundary)
    ensures (exists a: nat, h: nat :: FullAcrossBoundary(a, h, bufferSize, boundary)) <==> bufferSize >= 2
  {
    DivisionIsUnique(boundary - 1, boundary, 0, boundary - 1);
    if bufferSize >= 2 {
      assert FullAcrossBoundary(boundary - 1 + bufferSize, boundary - 1, bufferSize, boundary);
    }
  }

  /** And then a stream gets there, and a full ring reads as more space than there is. */
  lemma {:induction false} MisreadIsReachable(bufferSize: nat, boundary: nat) returns (moves: seq<Move>, a: nat, h: nat)
    requires Geometry(bufferSize, boundary) && bufferSize >= 2
    ensures Counters(moves, bufferSize) == Some((a, h)) && a == h + bufferSize
    ensures PlaybackAvail(HwPtr(h, boundary), ApplPtr(a, boundary), bufferSize, boundary) == boundary > bufferSize
  {
    h := boundary - 1;
    a := h + bufferSize;
    moves := KeptFull(bufferSize, a, h);
    DivisionIsUnique(h, boundary, 0, h);
    PlaybackAvailExact(a, h, bufferSize, boundary);
  }

  /** For instance with four frames of buffer and the boundary that pcm_open computes for them. */
  lemma {:induction false} MisreadOfFour()
    ensures var b, boundary, h := 4, 0x4000_0000, 0x3FFF_FFFE;
            Geometry(b, boundary) && boundary == b * Pow2(28) && INT_MAX - b < 2 * boundary &&
            FullAcrossBoundary(h + b, h, b, boundary) &&
            PlaybackAvail(HwPtr(h, boundary), ApplPtr(h + b, boundary), b, boundary) == boundary
  {
    Pow2Adds(7, 7);
    Pow2Adds(14, 14);
    PlaybackAvailExact(0x4000_0002, 0x3FFF_FFFE, 4, 0x4000_0000);
  }
}
