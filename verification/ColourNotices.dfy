/** That a new frame is noticed: a buffer in which one byte was drawn since it was left is rotated again. */
module ColourNotices {
  import opened Options
  import opened Bytes
  import opened ColourProcess
  import opened ColourHash
  import opened ColourShim
  import opened ColourForgets

  /** A buffer whose slot holds the hash of contents that differ in one byte is turned. */
  lemma {:induction false} ChangedIsTurned(t: Table, fd: int, was: Bytes, now: Bytes, i: nat, pixels: nat)
    requires Shaped(t) && |was| == 4 * pixels && OneByte(was, now, i)
    requires var (u, k) := Slot(t, fd); u.entries[k].hash == Hash(was)
    ensures PresentTable(t, fd, now).1 == Rotated(now)
  {
    OneByteTells(was, now, i, pixels);
    Again(t, fd, now);
  }

  /** The slot of a buffer that was just presented is found again. */
  lemma {:induction false} SlotAgain(t: Table, fd: int, content: Bytes)
    requires Shaped(t)
    ensures var (u, c) := PresentTable(t, fd, content);
            var (v, k) := Slot(u, fd); v.entries[k].hash == Hash(c)
  {
    var (u, c) := PresentTable(t, fd, content);
    if fd == 0 {
      ZeroPresent(t, content);
    } else {
      PresentSets(t, fd, content);
      var k, r := Slot(t, fd).1, Find(t.entries, fd, 0);
      assert forall j :: 0 <= j < k ==> t.entries[j].fd != fd;
      FindFirst(u.entries, fd, k);
    }
  }

  /** Whatever the table and the buffer, what one present leaves is turned by the next if one byte was
      drawn in between. */
  lemma {:induction false} NextFrameIsTurned(t: Table, fd: int, content: Bytes, now: Bytes, i: nat, pixels: nat)
    requires Shaped(t) && |content| == 4 * pixels && OneByte(PresentTable(t, fd, content).1, now, i)
    ensures var u := PresentTable(t, fd, content).0; PresentTable(u, fd, now).1 == Rotated(now)
  {
    var (u, c) := PresentTable(t, fd, content);
    SlotAgain(t, fd, content);
    ChangedIsTurned(u, fd, c, now, i, pixels);
  }

  /** The same with other buffers presented in between, as long as there are at most 24 in all. */
  lemma {:induction false} LaterFrameIsTurned(t: Table, m: map<int, Word32>, fd: int, content: Bytes, between: seq<Present>,
                                              now: Bytes, i: nat, pixels: nat)
    requires Refines(t, m) && fd > 0 && fd !in Fds(between) && Positive(Fds(between))
    requires |m.Keys + {fd} + Fds(between)| <= 24 && |content| == 4 * pixels && OneByte(PresentTable(t, fd, content).1, now, i)
    ensures var v := RunTable(PresentTable(t, fd, content).0, between).0; PresentTable(v, fd, now).1 == Rotated(now)
  {
    var (u, c) := PresentTable(t, fd, content);
    var v := RunTable(u, between).0;
    SlotLater(t, m, fd, content, between);
    ChangedIsTurned(v, fd, c, now, i, pixels);
  }

  lemma {:induction false} SlotLater(t: Table, m: map<int, Word32>, fd: int, content: Bytes, between: seq<Present>)
    requires Refines(t, m) && fd > 0 && fd !in Fds(between) && Positive(Fds(between))
    requires |m.Keys + {fd} + Fds(between)| <= FDMAP
    ensures var (u, c) := PresentTable(t, fd, content);
            var (v, k) := Slot(RunTable(u, between).0, fd); v.entries[k].hash == Hash(c)
  {
    SubsetSize(m.Keys + {fd}, m.Keys + {fd} + Fds(between));
    PresentRefines(t, m, fd, content);
    var u, n := PresentTable(t, fd, content).0, PresentMap(m, fd, content).0;
    TableIsMap(u, n, between);
    OthersKeepValue(n, fd, between);
    PresentLeavesHash(m, fd, content);
    SlotOfKnown(RunTable(u, between).0, RunMap(n, between).0, fd);
  }

  // ---------- The first frame ----------

  lemma {:induction false} ZeroMix(a: Lanes, s: Bytes)
    requires a == Lanes(0, 0, 0, 0) && |s| == 64 && s == Zeros(64)
    ensures Mixed(a, s) == a
  {
    forall j | 0 <= j < 4 ensures LaneOf(Mixed(a, s), j) == 0 {
      MixedLane(a, s, j, 0, 0, 0, 0, 0);
      MixLaneIs(0, 0, 0, 0, 0);
    }
    var r := Mixed(a, s);
    assert LaneOf(r, 0) == 0 && LaneOf(r, 1) == 0 && LaneOf(r, 2) == 0 && LaneOf(r, 3) == 0;
  }

  lemma {:induction false} ZeroBlocks(n: nat)
    ensures Blocks(Zeros(n)) == Lanes(0, 0, 0, 0)
    decreases n
  {
    if n >= 64 {
      ZeroBlocks(n - 64);
      assert Zeros(n)[..n - 64] == Zeros(n - 64) && Zeros(n)[n - 64..] == Zeros(64);
      ZeroMix(Blocks(Zeros(n - 64)), Zeros(64));
    }
  }

  lemma {:induction false} ZeroTail(n: nat)
    ensures Tail(0, Zeros(n)) == 0
    decreases n
  {
    if n >= 4 {
      ZeroTail(n - 4);
      assert Zeros(n)[..n - 4] == Zeros(n - 4) && Zeros(n)[n - 4..] == Zeros(4);
      MixTailIs(0, Word(Zeros(4)));
    }
  }

  lemma {:induction false} ZerosSplit(n: nat, w: nat)
    requires w <= n
    ensures Zeros(n)[..w] == Zeros(w) && Zeros(n)[w..] == Zeros(n - w)
  {}

  /** A buffer of zeros has the hash of a free slot. */
  lemma {:induction false} HashOfZeros(n: nat)
    ensures Hash(Zeros(n)) == 0
  {
    var w := Whole(n);
    ZeroBlocks(w);
    ZeroTail(n - w);
    FoldOfNone(Lanes(0, 0, 0, 0));
    ZerosSplit(n, w);
    HashOf(Zeros(n), w, Zeros(w), Zeros(n - w), 0);
  }

  /** The first frame of a session is turned as soon as one byte of it is not zero. */
  lemma {:induction false} FirstFrameIsTurned(t: Table, fd: int, frame: Bytes, i: nat, pixels: nat)
    requires Unused(t) && |frame| == 4 * pixels && i < |frame| && frame == Zeros(|frame|)[i := frame[i]] && frame[i] != 0
    ensures PresentTable(t, fd, frame).1 == Rotated(frame)
  {
    var zeros := Zeros(|frame|);
    assert zeros[..i] == frame[..i] && zeros[i + 1..] == frame[i + 1..];
    HashOfZeros(|frame|);
    OneByteTells(zeros, frame, i, pixels);
    FirstPresent(t, fd, frame);
  }
}
