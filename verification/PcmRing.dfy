/** The mmap ring of tinyalsa (pcm.c) as a queue of frames shared with the sound hardware. */
module PcmRing {
  import opened Arithmetic
  import opened PcmPointers

  type Errno = e: int | e > 0 witness 1

  /** What the kernel does at one synchronisation or request, for an arbitrary schedule of the hardware. */
  datatype Kernel<T> = Kernel(
    frames: nat,         // how far playback would like to advance
    samples: seq<T>,     // what capture would like to deliver
    ok: bool,            // whether a request made now succeeds
    brokenPipe: bool,    // whether a failing transfer request fails with EPIPE
    wait: int,           // what pcm_wait returns: a negative error, 0 for a timeout, 1 when ready
    errno: Errno)

  const EPIPE := 32

  /** The result of a call: its return value, or the point at which the model stopped following it. */
  datatype Outcome = Finished(code: int) | Unfinished | RingMisread

  /** What a round of pcm_mmap_transfer does after looking at the ring. */
  datatype Next = Copy | Again | Return(code: int)

  function Min(a: int, b: int): int { if a < b then a else b }

  /** The ring is a first-in first-out queue: what left is what entered first, and each frame still
      inside lies in the cell of its own number. */
  ghost predicate Fifo<T>(cells: seq<T>, entered: seq<T>, left: seq<T>) {
    |cells| > 0 && left <= entered && |entered| <= |left| + |cells| &&
    forall j :: |left| <= j < |entered| ==> cells[j % |cells|] == entered[j]
  }

  lemma {:induction false} FifoPlay<T>(cells: seq<T>, entered: seq<T>, left: seq<T>)
    requires Fifo(cells, entered, left) && |left| < |entered|
    ensures cells[|left| % |cells|] == entered[|left|]
    ensures Fifo(cells, entered, left + [entered[|left|]])
  {}

  lemma {:induction false} FifoRecord<T>(cells: seq<T>, entered: seq<T>, left: seq<T>, x: T)
    requires Fifo(cells, entered, left) && |entered| < |left| + |cells|
    ensures Fifo(cells[|entered| % |cells| := x], entered + [x], left)
  {
    var cells', entered' := cells[|entered| % |cells| := x], entered + [x];
    forall j | |left| <= j < |entered'| ensures cells'[j % |cells|] == entered'[j] {
      if j < |entered| {
        DistinctMod(j, |entered|, |cells|);
      }
    }
  }

  /** What one side of the queue and a caller's buffer hold when the frames i to j of the buffer have moved:
      captured frames are the next ones to leave and fill the buffer, played ones are the next to enter.
      Meanwhile the hardware may have moved the other end of the queue. */
  ghost predicate Moved<T>(capture: bool, entered0: seq<T>, left0: seq<T>, entered: seq<T>, left: seq<T>,
                           buf0: seq<T>, buf: seq<T>, i: nat, j: nat) {
    i <= j <= |buf| == |buf0| &&
    if capture then
      left == left0 + buf[i..j] && entered0 <= entered && buf[..i] == buf0[..i] && buf[j..] == buf0[j..]
    else
      entered == entered0 + buf[i..j] && left0 <= left && buf == buf0
  }

  lemma {:induction false} MovedTwice<T>(capture: bool, e0: seq<T>, l0: seq<T>, e1: seq<T>, l1: seq<T>, e2: seq<T>, l2: seq<T>,
                      b0: seq<T>, b1: seq<T>, b2: seq<T>, i: nat, j: nat, k: nat)
    requires Moved(capture, e0, l0, e1, l1, b0, b1, i, j) && Moved(capture, e1, l1, e2, l2, b1, b2, j, k)
    ensures Moved(capture, e0, l0, e2, l2, b0, b2, i, k)
  {
    if capture {
      assert b2[i..j] == b2[..j][i..] == b1[..j][i..] == b1[i..j];
      assert b2[i..k] == b2[i..j] + b2[j..k];
      assert b2[..i] == b2[..j][..i] == b1[..j][..i] == b1[..i];
      assert b2[k..] == b1[k..] == b1[j..][k - j..] == b0[j..][k - j..] == b0[k..];
    } else {
      assert b2[i..k] == b2[i..j] + b2[j..k];
    }
  }

  /** The hardware's steps before a piece is moved do not matter. */
  lemma {:induction false} MovedLater<T>(capture: bool, e0: seq<T>, l0: seq<T>, e1: seq<T>, l1: seq<T>, e2: seq<T>, l2: seq<T>,
                      b0: seq<T>, b1: seq<T>, i: nat, j: nat)
    requires Moved(capture, e1, l1, e2, l2, b0, b1, i, j)
    requires e0 <= e1 && l0 <= l1 && if capture then l0 == l1 else e0 == e1
    ensures Moved(capture, e0, l0, e2, l2, b0, b1, i, j)
  {}

  /** Cells outside the queue may be overwritten. */
  lemma {:induction false} FifoOverwrite<T>(cells: seq<T>, cells': seq<T>, entered: seq<T>, left: seq<T>, offset: nat, frames: nat)
    requires Fifo(cells, entered, left) && |cells'| == |cells|
    requires offset == |entered| % |cells| && offset + frames <= |cells| && |entered| + frames <= |left| + |cells|
    requires cells'[..offset] == cells[..offset] && cells'[offset + frames..] == cells[offset + frames..]
    ensures Fifo(cells', entered, left)
  {
    forall j | |left| <= j < |entered| ensures cells'[j % |cells|] == entered[j] {
      var c := j % |cells|;
      if offset <= c < offset + frames {
        AddMod(|entered|, |cells|, c - offset);
        DistinctMod(j, |entered| + (c - offset), |cells|);
        assert false;
      } else if c >= offset {
        assert cells'[offset + frames..][c - (offset + frames)] == cells[c];
      } else {
        assert cells'[..offset][c] == cells[c];
      }
    }
  }

  /** A contiguous piece of free cells joins the queue. */
  lemma {:induction false} FifoAppend<T>(cells: seq<T>, entered: seq<T>, left: seq<T>, offset: nat, frames: nat)
    requires Fifo(cells, entered, left)
    requires offset == |entered| % |cells| && offset + frames <= |cells| && |entered| + frames <= |left| + |cells|
    ensures Fifo(cells, entered + cells[offset..offset + frames], left)
  {
    var entered' := entered + cells[offset..offset + frames];
    forall j | |left| <= j < |entered'| ensures cells[j % |cells|] == entered'[j] {
      if j >= |entered| {
        AddMod(|entered|, |cells|, j - |entered|);
      }
    }
  }

  /** A contiguous piece of filled cells leaves the queue, in the order in which it entered. */
  lemma {:induction false} FifoTake<T>(cells: seq<T>, entered: seq<T>, left: seq<T>, offset: nat, frames: nat)
    requires Fifo(cells, entered, left)
    requires offset == |left| % |cells| && offset + frames <= |cells| && |left| + frames <= |entered|
    ensures Fifo(cells, entered, left + cells[offset..offset + frames])
  {
    var left' := left + cells[offset..offset + frames];
    forall j | |left| <= j < |left'| ensures left'[j] == entered[j] {
      AddMod(|left|, |cells|, j - |left|);
    }
    assert left' <= entered;
  }

  /** The copied piece and the cells around it. */
  ghost predicate Copied<T>(cells: seq<T>, cells': seq<T>, offset: nat, piece: seq<T>) {
    offset + |piece| <= |cells| == |cells'| && cells'[offset..offset + |piece|] == piece &&
    cells'[..offset] == cells[..offset] && cells'[offset + |piece|..] == cells[offset + |piece|..]
  }

  lemma {:induction false} CopiedAt<T>(cells: seq<T>, cells': seq<T>, offset: nat, piece: seq<T>, c: nat)
    requires Copied(cells, cells', offset, piece) && c < |cells|
    ensures cells'[c] == if offset <= c < offset + |piece| then piece[c - offset] else cells[c]
  {
    if c < offset {
      assert cells'[c] == cells'[..offset][c];
    } else if c < offset + |piece| {
      assert cells'[c] == cells'[offset..offset + |piece|][c - offset];
    } else {
      assert cells'[c] == cells'[offset + |piece|..][c - (offset + |piece|)];
    }
  }

  lemma {:induction false} OldestCells<T>(cells: seq<T>, entered: seq<T>, left: seq<T>, offset: nat, k: nat)
    requires Fifo(cells, entered, left) && |entered| == |left| + |cells|
    requires offset == |entered| % |cells| && offset + k < |cells|
    ensures (|left| + k) % |cells| == offset + k && cells[offset + k] == entered[|left| + k]
  {
    MultipleMod(|left|, |cells|, 1);
    AddMod(|left|, |cells|, k);
  }

  lemma {:induction false} SameCell<T>(cells: seq<T>, cells': seq<T>, entered: seq<T>, left: seq<T>, offset: nat, piece: seq<T>, j: nat)
    requires Fifo(cells, entered, left) && |entered| == |left| + |cells| && |left| <= j < |entered|
    requires offset == |entered| % |cells| && Copied(cells, cells', offset, piece) && piece == entered[|left|..|left| + |piece|]
    ensures cells'[j % |cells|] == entered[j]
  {
    var c := j % |cells|;
    CopiedAt(cells, cells', offset, piece, c);
    if offset <= c < offset + |piece| {
      OldestCells(cells, entered, left, offset, c - offset);
    }
  }

  /** In the misread state the ring is full, so the next piece to be written covers the oldest frames that
      still have to be played: each of them is replaced, and the queue survives if and only if they are
      replaced by themselves. */
  lemma {:induction false} MisreadOverwrites<T>(cells: seq<T>, cells': seq<T>, entered: seq<T>, left: seq<T>, offset: nat, piece: seq<T>)
    requires Fifo(cells, entered, left) && |entered| == |left| + |cells|
    requires offset == |entered| % |cells| && Copied(cells, cells', offset, piece)
    ensures forall k :: 0 <= k < |piece| ==> cells[offset + k] == entered[|left| + k] && cells'[offset + k] == piece[k]
    ensures Fifo(cells', entered, left) <==> piece == entered[|left|..|left| + |piece|]
  {
    forall k | 0 <= k < |piece|
      ensures (|left| + k) % |cells| == offset + k && cells[offset + k] == entered[|left| + k] && cells'[offset + k] == piece[k]
    {
      OldestCells(cells, entered, left, offset, k);
      CopiedAt(cells, cells', offset, piece, offset + k);
    }
    if piece == entered[|left|..|left| + |piece|] {
      forall j | |left| <= j < |entered| ensures cells'[j % |cells|] == entered[j] {
        SameCell(cells, cells', entered, left, offset, piece, j);
      }
    } else {
      var k :| 0 <= k < |piece| && piece[k] != entered[|left|..|left| + |piece|][k];
      assert cells'[(|left| + k) % |cells|] != entered[|left| + k];
    }
  }

  class Pcm<T(0)> {
    const bufferSize: nat
    const boundary: nat
    const capture: bool
    const startThreshold: nat
    const availMin: int
    const noRestart: bool
    const kernel: nat -> Kernel<T>

    const buffer: array<T>
    var hwPtr: nat
    var applPtr: nat
    var running: bool
    var prepared: bool
    var waitForAvailMin: bool
    var clock: nat
    var underruns: nat
    var waits: nat               // calls of pcm_wait

    /** All frames the kernel accepted from pcm_write. */
    var written: seq<T>

    /** All frames that ever entered the ring, and all that ever left it: the unbounded stream. */
    var entered: seq<T>
    var left: seq<T>

    /** False once an error path has cleared the application pointer. */
    var synced: bool

    /** The application's counter and the hardware's. */
    ghost function A(): nat reads this { if capture then |left| else |entered| }

    ghost function H(): nat reads this { if capture then |entered| else |left| }

    /** The number of frames the application may move: filled cells for capture, free ones for playback. */
    ghost function Avail(): int reads this {
      if capture then |entered| - |left| else bufferSize - (|entered| - |left|)
    }

    /** The pointers stand for the counters and the memory holds the queue. */
    ghost predicate Queue()
      reads this, buffer
    {
      Geometry(bufferSize, boundary) && buffer.Length == bufferSize && Fifo(buffer[..], entered, left) &&
      hwPtr == HwPtr(H(), boundary) && applPtr == ApplPtr(A(), boundary)
    }

    ghost predicate Valid()
      reads this, buffer
    {
      (running ==> prepared) && (synced ==> Queue())
    }

    /** The one state in which the library misreads the ring. */
    ghost predicate Misread()
      reads this
    {
      boundary > 0 && !capture && FullAcrossBoundary(A(), H(), bufferSize, boundary)
    }

    constructor (bufferSize: nat, boundary: nat, capture: bool, startThreshold: nat, availMin: int,
                 noRestart: bool, kernel: nat -> Kernel<T>)
      requires Geometry(bufferSize, boundary)
      ensures Valid() && synced && entered == left == [] && !running && fresh(buffer)
    {
      this.bufferSize, this.boundary, this.capture := bufferSize, boundary, capture;
      this.startThreshold, this.availMin, this.noRestart, this.kernel := startThreshold, availMin, noRestart, kernel;
      buffer := new T[bufferSize];
      hwPtr, applPtr, running, prepared, waitForAvailMin, clock := 0, 0, false, false, false, 0;
      entered, left, synced := [], [], true;
      underruns, waits, written := 0, 0, [];
    }

    // ---------- The environment ----------

    /** The hardware plays frames out of the ring: the oldest ones that were written, in order. */
    method Play(n: nat)
      requires synced && Valid() && !capture && n <= |entered| - |left|
      modifies this`hwPtr, this`left
      ensures Valid() && left == old(left) + entered[old(|left|)..old(|left|) + n]
    {
      for i := 0 to n
        invariant Valid() && left == old(left) + entered[old(|left|)..old(|left|) + i]
      {
        HwCell(|left|, bufferSize, boundary);
        HwStep(|left|, boundary);
        FifoPlay(buffer[..], entered, left);
        left := left + [buffer[hwPtr % bufferSize]];
        hwPtr := (hwPtr + 1) % boundary;
      }
    }

    /** The hardware records frames into the ring. */
    method Record(samples: seq<T>)
      requires synced && Valid() && capture && |entered| + |samples| <= |left| + bufferSize
      modifies this`hwPtr, this`entered, buffer
      ensures Valid() && entered == old(entered) + samples
    {
      for i := 0 to |samples|
        invariant Valid() && entered == old(entered) + samples[..i]
      {
        HwCell(|entered|, bufferSize, boundary);
        HwStep(|entered|, boundary);
        FifoRecord(buffer[..], entered, left, samples[i]);
        ghost var was := buffer[..];
        buffer[hwPtr % bufferSize] := samples[i];
        assert buffer[..] == was[hwPtr % bufferSize := samples[i]];
        entered := entered + [samples[i]];
        hwPtr := (hwPtr + 1) % boundary;
      }
    }

    /** pcm_sync_ptr: the kernel takes a step. The hardware neither overtakes the application nor laps it. */
    method SyncPtr() returns (k: Kernel<T>)
      requires Valid()
      modifies this`hwPtr, this`left, this`entered, this`clock, buffer
      ensures Valid() && k == kernel(old(clock)) && clock == old(clock) + 1
      ensures old(left) <= left && old(entered) <= entered
      ensures capture ==> left == old(left)
      ensures !capture ==> entered == old(entered) && buffer[..] == old(buffer[..])
    {
      k := kernel(clock);
      clock := clock + 1;
      if synced && !capture {
        Play(Min(k.frames, |entered| - |left|));
      } else if synced {
        Record(k.samples[..Min(|k.samples|, |left| + bufferSize - |entered|)]);
      }
    }

    // ---------- The application side ----------

    /** pcm_mmap_avail. */
    method MmapAvail() returns (avail: int)
      requires Valid() && synced
      modifies this`hwPtr, this`left, this`entered, this`clock, buffer
      ensures Valid()
      ensures old(left) <= left && old(entered) <= entered
      ensures capture ==> left == old(left)
      ensures !capture ==> entered == old(entered) && buffer[..] == old(buffer[..])
      ensures avail == (if Misread() then boundary else Avail()) && clock == old(clock) + 1
    {
      var _ := SyncPtr();
      if capture {
        CaptureAvailExact(A(), H(), bufferSize, boundary);
        avail := CaptureAvail(hwPtr, applPtr, boundary);
      } else {
        PlaybackAvailExact(A(), H(), bufferSize, boundary);
        avail := PlaybackAvail(hwPtr, applPtr, bufferSize, boundary);
      }
    }

    /** pcm_mmap_begin: the contiguous part of the available frames. */
    method Begin(wanted: nat) returns (offset: nat, frames: nat)
      requires Valid() && synced
      modifies this`hwPtr, this`left, this`entered, this`clock, buffer
      ensures Valid()
      ensures old(left) <= left && old(entered) <= entered
      ensures capture ==> left == old(left)
      ensures !capture ==> entered == old(entered) && buffer[..] == old(buffer[..])
      ensures offset == A() % bufferSize
      ensures frames == Min(wanted, Min(if Misread() then bufferSize else Avail(), bufferSize - offset)) && clock == old(clock) + 1
    {
      RingOffset(A(), bufferSize, boundary);
      offset := applPtr % bufferSize;
      var avail := MmapAvail();
      var clamped := Unsigned(avail);
      if clamped > bufferSize {
        clamped := bufferSize;
      }
      var continuous := bufferSize - offset;
      frames := wanted;
      if frames > clamped {
        frames := clamped;
      }
      if frames > continuous {
        frames := continuous;
      }
    }

    /** memcpy. */
    static method Memcpy(to: array<T>, i: nat, from: array<T>, j: nat, n: nat)
      requires to != from && i + n <= to.Length && j + n <= from.Length
      modifies to
      ensures to[i..i + n] == from[j..j + n] && to[..i] == old(to[..i]) && to[i + n..] == old(to[i + n..])
    {
      forall k | 0 <= k < n {
        to[i + k] := from[j + k];
      }
    }

    /** pcm_areas_copy, for the cells that begin at the application's counter. */
    method AreasCopy(offset: nat, buf: array<T>, src: nat, frames: nat)
      requires Valid() && synced && buf != buffer
      requires offset == A() % bufferSize && offset + frames <= bufferSize && frames <= Avail()
      requires src + frames <= buf.Length
      modifies buffer, buf
      ensures Valid()
      ensures buf[src..src + frames] == buffer[offset..offset + frames]
      ensures capture ==> buffer[..] == old(buffer[..]) && buf[..src] == old(buf[..src]) &&
                          buf[src + frames..] == old(buf[src + frames..])
      ensures !capture ==> buf[..] == old(buf[..])
    {
      if capture {
        Memcpy(buf, src, buffer, offset, frames);
      } else {
        Memcpy(buffer, offset, buf, src, frames);
        FifoOverwrite(old(buffer[..]), buffer[..], entered, left, offset, frames);
      }
    }

    /** pcm_mmap_commit: the frames at the pointer change hands. */
    method Commit(offset: nat, frames: nat) returns (committed: nat)
      requires Valid() && synced
      requires offset == A() % bufferSize && offset + frames <= bufferSize && frames <= Avail()
      modifies this`hwPtr, this`applPtr, this`left, this`entered, this`clock, buffer
      ensures Valid() && committed == frames && clock == old(clock) + 1
      ensures capture ==> left == old(left) + old(buffer[offset..offset + frames]) && old(entered) <= entered
      ensures !capture ==> entered == old(entered) + old(buffer[offset..offset + frames]) && old(left) <= left
    {
      ApplForwardAdds(A(), frames, boundary);
      applPtr := ApplForward(applPtr, frames, boundary);
      if capture {
        FifoTake(buffer[..], entered, left, offset, frames);
        left := left + buffer[offset..offset + frames];
      } else {
        FifoAppend(buffer[..], entered, left, offset, frames);
        entered := entered + buffer[offset..offset + frames];
      }
      var _ := SyncPtr();
      committed := frames;
    }

    /** The application is at the first cell of the ring. */
    ghost predicate Aligned()
      requires bufferSize > 0
      reads this
    {
      A() % bufferSize == 0
    }

    /** What a round of pcm_mmap_transfer_areas does with the piece that Begin gives it in the misread
        state: it is copied over frames that are still to be played, and the pointer moves on. They are
        lost unless the new ones happen to be the same. */
    method OverwritePiece(offset: nat, buf: array<T>, src: nat, frames: nat)
      requires Valid() && synced && Misread() && buf != buffer
      requires offset == A() % bufferSize && offset + frames <= bufferSize && src + frames <= buf.Length
      modifies this`applPtr, this`synced, buffer
      ensures Valid() && !synced && applPtr == ApplPtr(|entered| + frames, boundary)
      ensures buffer[offset..offset + frames] == buf[src..src + frames]
      ensures buffer[..offset] == old(buffer[..offset]) && buffer[offset + frames..] == old(buffer[offset + frames..])
      ensures Fifo(buffer[..], entered, left) <==> buf[src..src + frames] == entered[|left|..|left| + frames]
    {
      Memcpy(buffer, offset, buf, src, frames);
      MisreadOverwrites(old(buffer[..]), buffer[..], entered, left, offset, buf[src..src + frames]);
      ApplForwardAdds(A(), frames, boundary);
      applPtr := ApplForward(applPtr, frames, boundary);
      synced := false;
    }

    /** One round of pcm_mmap_transfer_areas: the piece up to the end of the ring. */
    method TransferPiece(buf: array<T>, offset: nat, size: nat) returns (frames: nat)
      requires Valid() && synced && buf != buffer
      requires offset + size <= buf.Length && 0 < size <= Avail()
      modifies this`hwPtr, this`applPtr, this`left, this`entered, this`clock, buffer, buf
      ensures Valid() && frames == Min(size, bufferSize - old(A()) % bufferSize)
      ensures (frames < size ==> Aligned()) && (old(Aligned()) ==> frames == size)
      ensures size - frames <= Avail()
      ensures Moved(capture, old(entered), old(left), entered, left, old(buf[..]), buf[..], offset, offset + frames)
    {
      var pcmOffset;
      pcmOffset, frames := Begin(size);
      PieceEnds(A(), pcmOffset, frames, bufferSize);
      AreasCopy(pcmOffset, buf, offset, frames);
      frames := Commit(pcmOffset, frames);
    }

    /** A round on top of what earlier rounds moved. */
    method TransferOn(buf: array<T>, start: nat, offset: nat, size: nat, ghost e: seq<T>, ghost l: seq<T>, ghost b: seq<T>)
      returns (frames: nat)
      requires Valid() && synced && buf != buffer
      requires offset + size <= buf.Length && 0 < size <= Avail()
      requires Moved(capture, e, l, entered, left, b, buf[..], start, offset)
      modifies this`hwPtr, this`applPtr, this`left, this`entered, this`clock, buffer, buf
      ensures Valid() && 0 < frames <= size && size - frames <= Avail()
      ensures (frames < size ==> Aligned()) && (old(Aligned()) ==> frames == size)
      ensures Moved(capture, e, l, entered, left, b, buf[..], start, offset + frames)
    {
      ghost var e1, l1, b1 := entered, left, buf[..];
      frames := TransferPiece(buf, offset, size);
      MovedTwice(capture, e, l, e1, l1, entered, left, b, b1, buf[..], start, offset, offset + frames);
    }

    /** pcm_mmap_transfer_areas: any number of available frames moves in at most two contiguous pieces. */
    method TransferAreas(buf: array<T>, start: nat, total: nat) returns (count: nat, ghost pieces: nat)
      requires Valid() && synced && buf != buffer
      requires start + total <= buf.Length && total <= Avail()
      modifies this`hwPtr, this`applPtr, this`left, this`entered, this`clock, buffer, buf
      ensures Valid() && count == total && pieces <= 2
      ensures Moved(capture, old(entered), old(left), entered, left, old(buf[..]), buf[..], start, start + total)
    {
      var offset, size := start, total;
      count, pieces := 0, 0;
      ghost var e, l, b := entered, left, buf[..];
      while size > 0
        invariant Valid() && offset == start + count && count + size == total && 0 <= size <= Avail()
        invariant pieces == 0 || (pieces == 1 && Aligned()) || (pieces <= 2 && size == 0)
        invariant Moved(capture, e, l, entered, left, b, buf[..], start, offset)
      {
        var commit := TransferOn(buf, start, offset, size, e, l, b);
        offset := offset + commit;
        count := count + commit;
        size := size - commit;
        pieces := pieces + 1;
      }
    }

    // ---------- Running and prepared ----------

    /** pcm_prepare: it asks the kernel unless the stream is prepared. */
    method Prepare() returns (r: int)
      requires Valid()
      modifies this`prepared, this`clock
      ensures Valid() && (r == 0 <==> prepared) && -1 <= r <= 0
      ensures prepared == (old(prepared) || Ok(old(clock))) && clock == old(clock) + if old(prepared) then 0 else 1
    {
      if prepared {
        return 0;
      }
      clock := clock + 1;
      if !kernel(clock - 1).ok {
        return -1;
      }
      prepared := true;
      r := 0;
    }

    /** pcm_start: it succeeds exactly when the kernel prepares the stream, if it must, and then starts it. */
    method Start() returns (r: int)
      requires Valid()
      modifies this`running, this`prepared, this`hwPtr, this`left, this`entered, this`clock, buffer
      ensures Valid() && r <= 0 && (r == 0 ==> running) && (r < 0 ==> running == old(running))
      ensures r == 0 <==> Starts(old(clock), old(prepared))
      ensures clock == if old(prepared) then old(clock) + 2 else if Ok(old(clock)) then old(clock) + 3 else old(clock) + 1
      ensures r < 0 ==> !Ok(clock - 1)
      ensures old(left) <= left && old(entered) <= entered
      ensures capture ==> left == old(left)
      ensures !capture ==> entered == old(entered) && buffer[..] == old(buffer[..])
    {
      r := Prepare();
      if r != 0 {
        return;
      }
      var _ := SyncPtr();
      clock := clock + 1;
      if !kernel(clock - 1).ok {
        return -1;
      }
      running := true;
      r := 0;
    }

    /** pcm_stop: it succeeds exactly when the kernel drops the stream. */
    method Stop() returns (r: int)
      requires Valid()
      modifies this`running, this`prepared, this`clock
      ensures Valid() && (r == 0 ==> !running && !prepared) && (r != 0 ==> running == old(running) && prepared == old(prepared))
      ensures (r == 0 <==> Ok(old(clock))) && -1 <= r <= 0 && clock == old(clock) + 1
    {
      clock := clock + 1;
      if !kernel(clock - 1).ok {
        return -1;
      }
      prepared := false;
      running := false;
      r := 0;
    }

    // ---------- What the kernel answers ----------

    /** The request made at this point succeeds. */
    ghost predicate Ok(t: nat) { kernel(t).ok }

    /** It fails because the stream had an underrun or overrun. */
    ghost predicate Xrun(t: nat) { !kernel(t).ok && kernel(t).brokenPipe }

    /** A negative result is the kernel's last answer: that of a failed wait, or the error of a failed start. */
    ghost predicate Refused(code: int) reads this`clock {
      code < 0 && clock > 0 &&
      (code == kernel(clock - 1).wait || (!kernel(clock - 1).ok && code == 0 - kernel(clock - 1).errno))
    }

    /** What a result says: a negative one comes from the kernel and leaves the stream stopped, only it can
        leave the pointers cleared, there is no positive one, and the misreading is one. */
    ghost predicate Settled(o: Outcome) reads this {
      (o.Finished? ==> o.code <= 0 && (o.code < 0 ==> !running && Refused(o.code))) &&
      (!synced ==> o.Finished? && o.code < 0) && (o.RingMisread? ==> Misread())
    }

    /** A start at this point succeeds: a preparation, unless the stream is prepared, a synchronisation that
        cannot fail, and the start itself. */
    ghost predicate Starts(t: nat, prepared: bool) {
      if prepared then Ok(t + 1) else Ok(t) && Ok(t + 2)
    }

    /** A preparation, unless the stream is prepared, and then a write. */
    ghost predicate TakesFirst(t: nat, prepared: bool) {
      if prepared then Ok(t) else Ok(t) && Ok(t + 1)
    }

    /** When pcm_read makes its first request. */
    ghost function FirstRead(t: nat, running: bool, prepared: bool): nat {
      if running then t else if prepared then t + 2 else t + 3
    }

    /** After an overrun at this point the stream is prepared and started once more. */
    ghost predicate Restarts(t: nat) { Xrun(t) && Ok(t + 1) && Ok(t + 3) }

    /** pcm_read comes to its n-th request: every one before it failed with an overrun, and every start
        succeeded. */
    ghost predicate Comes(t: nat, running: bool, prepared: bool, n: nat) {
      (running || Starts(t, prepared)) && forall m :: 0 <= m < n ==> Restarts(FirstRead(t, running, prepared) + 4 * m)
    }

    // ---------- Blocking transfers ----------

    /** pcm_write on a stream that does not run: prepare, then write. */
    method WriteInitial(data: seq<T>) returns (o: Outcome)
      requires Valid() && !running && !capture
      modifies this`running, this`prepared, this`clock, this`written
      ensures Valid() && o == Finished(if TakesFirst(old(clock), old(prepared)) then 0 else -1)
      ensures running == (o == Finished(0)) && prepared == (old(prepared) || Ok(old(clock)))
      ensures written == if o == Finished(0) then old(written) + data else old(written)
    {
      var r := Prepare();
      if r != 0 {
        return Finished(r);
      }
      clock := clock + 1;
      if !kernel(clock - 1).ok {
        return Finished(-1);
      }
      running, written := true, written + data;
      o := Finished(0);
    }

    /** pcm_write, for a number of rounds of its loop; two are always enough. The whole buffer is offered in
        every round. It returns 0 exactly when the kernel takes the buffer, at once, or after one underrun
        and a successful preparation where restarting is allowed; EPIPE exactly for an underrun where it is
        not; -1 for every other failure. */
    method Write(data: seq<T>, rounds: nat) returns (o: Outcome)
      requires Valid()
      modifies this`running, this`prepared, this`clock, this`underruns, this`written
      ensures Valid()
      ensures written == if o == Finished(0) then old(written) + data else old(written)
      ensures capture ==> o == Finished(-22) && running == old(running) && underruns == old(underruns)
      ensures !capture ==> (o == Unfinished <==> rounds == 0 || (rounds == 1 && old(running) && Xrun(old(clock)) && !noRestart))
      ensures !capture && o != Unfinished ==>
                var t := old(clock);
                (o == Finished(0) <==>
                   if old(running) then Ok(t) || (Xrun(t) && !noRestart && Ok(t + 1) && Ok(t + 2))
                   else if old(prepared) then Ok(t) else Ok(t) && Ok(t + 1)) &&
                (o == Finished(-32) <==> old(running) && Xrun(t) && noRestart) &&
                (o == Finished(0) || o == Finished(-32) || o == Finished(-1))
      ensures !capture && rounds > 0 ==> underruns == old(underruns) + if old(running) && Xrun(old(clock)) then 1 else 0
      ensures !capture && rounds > 0 ==> running == (o == Finished(0))
      ensures o == Finished(0) ==> prepared && !capture
    {
      if capture {
        return Finished(-22);
      }
      ghost var t := clock;
      for round := 0 to rounds
        invariant Valid() && written == old(written) && round <= 1
        invariant round == 0 ==> running == old(running) && prepared == old(prepared) && clock == t && underruns == old(underruns)
        invariant round > 0 ==> !running && !prepared && clock == t + 1 && underruns == old(underruns) + 1
        invariant round > 0 ==> old(running) && Xrun(t) && !noRestart
      {
        if !running {
          o := WriteInitial(data);
          return;
        }
        clock := clock + 1;
        if kernel(clock - 1).ok {
          written := written + data;
          return Finished(0);
        }
        prepared := false;
        running := false;
        if !kernel(clock - 1).brokenPipe {
          return Finished(-1);
        }
        underruns := underruns + 1;
        if noRestart {
          return Finished(-EPIPE);
        }
      }
      o := Unfinished;
    }

    /** One round of pcm_read: start the stream if it does not run, and make a request. */
    method ReadRound() returns (stop: bool, o: Outcome, data: seq<T>)
      requires Valid() && capture
      modifies this`running, this`prepared, this`hwPtr, this`left, this`entered, this`clock, this`underruns, buffer
      ensures Valid() && clock > old(clock)
      ensures var t := FirstRead(old(clock), old(running), old(prepared));
              if !(old(running) || Starts(old(clock), old(prepared)))
              then stop && !running && !Ok(clock - 1) && o == Finished(0 - kernel(clock - 1).errno) && data == []
              else clock == t + 1 && stop == !Xrun(t) && (stop ==> o == Finished(if Ok(t) then 0 else -1)) &&
                   data == if Ok(t) then kernel(t).samples else []
      ensures underruns == old(underruns) + if stop then 0 else 1
      ensures if stop && o == Finished(0) then running && prepared else !running && (!stop ==> !prepared)
    {
      if !running {
        var r := Start();
        if r < 0 {
          return true, Finished(0 - kernel(clock - 1).errno), [];
        }
      }
      clock := clock + 1;
      if kernel(clock - 1).ok {
        return true, Finished(0), kernel(clock - 1).samples;
      }
      prepared := false;
      running := false;
      if !kernel(clock - 1).brokenPipe {
        return true, Finished(-1), [];
      }
      underruns := underruns + 1;
      stop, o, data := false, Unfinished, [];
    }

    /** The request after an overrun. */
    lemma {:induction false} NextComes(t: nat, was: bool, ready: bool, n: nat)
      requires n > 0 ==> Comes(t, was, ready, n - 1) && Xrun(FirstRead(t, was, ready) + 4 * (n - 1))
      ensures Comes(t, was, ready, n) <==>
                if n == 0 then was || Starts(t, ready) else Starts(FirstRead(t, was, ready) + 4 * (n - 1) + 1, false)
    {}

    /** The first n requests of pcm_read failed with an overrun. */
    ghost predicate Overruns(first: nat, n: nat) {
      forall m :: 0 <= m < n ==> Xrun(first + 4 * m)
    }

    /** pcm_read before its n-th round. */
    ghost predicate Reading(t: nat, was: bool, ready: bool, n: nat)
      reads this`running, this`prepared, this`clock
    {
      Overruns(FirstRead(t, was, ready), n) &&
      if n == 0 then running == was && prepared == ready && clock == t
      else !running && !prepared && clock == FirstRead(t, was, ready) + 4 * (n - 1) + 1 && Comes(t, was, ready, n - 1)
    }

    /** How pcm_read ends in its n-th round: with the frames of that request, because it failed, or because
        the start before it did. */
    ghost predicate ReadEnds(t: nat, was: bool, ready: bool, n: nat, o: Outcome, data: seq<T>, end: nat) {
      var at := FirstRead(t, was, ready) + 4 * n;
      if !Comes(t, was, ready, n) then end > t && !Ok(end - 1) && o == Finished(0 - kernel(end - 1).errno) && data == []
      else !Xrun(at) && o == Finished(if Ok(at) then 0 else -1) && data == if Ok(at) then kernel(at).samples else []
    }

    method ReadNext(ghost t: nat, ghost was: bool, ghost ready: bool, ghost n: nat) returns (stop: bool, o: Outcome, data: seq<T>)
      requires Valid() && capture && Reading(t, was, ready, n)
      modifies this`running, this`prepared, this`hwPtr, this`left, this`entered, this`clock, this`underruns, buffer
      ensures Valid() && underruns == old(underruns) + if stop then 0 else 1
      ensures !stop ==> Reading(t, was, ready, n + 1)
      ensures stop ==> ReadEnds(t, was, ready, n, o, data, clock)
      ensures if stop && o == Finished(0) then running && prepared else !running
    {
      ghost var at := FirstRead(clock, running, prepared);
      assert at == FirstRead(t, was, ready) + 4 * n && clock >= t;
      NextComes(t, was, ready, n);
      stop, o, data := ReadRound();
    }

    /** pcm_read, for a number of rounds of its loop: it returns 0 exactly when some request succeeds after
        nothing but overruns and successful restarts, and then the caller has that request's frames, and
        otherwise none; it counts the overruns, and gives up only on another failure or a failed start. */
    method Read(rounds: nat) returns (o: Outcome, data: seq<T>)
      requires Valid()
      modifies this`running, this`prepared, this`hwPtr, this`left, this`entered, this`clock, this`underruns, buffer
      ensures Valid() && (!capture ==> o == Finished(-22) && data == [])
      ensures o == Finished(0) ==> running && prepared && capture
      ensures o.Finished? && o.code != 0 && capture ==> !running
      ensures o != Finished(0) ==> data == []
      ensures old(underruns) <= underruns <= old(underruns) + rounds
      ensures capture ==>
                var n := underruns - old(underruns);
                Overruns(FirstRead(old(clock), old(running), old(prepared)), n) && (o == Unfinished <==> n == rounds) &&
                (n < rounds ==> ReadEnds(old(clock), old(running), old(prepared), n, o, data, clock))
    {
      if !capture {
        return Finished(-22), [];
      }
      ghost var t, was, ready := clock, running, prepared;
      for round := 0 to rounds
        invariant Valid() && underruns == old(underruns) + round && Reading(t, was, ready, round)
      {
        var stop, outcome, frames := ReadNext(t, was, ready, round);
        if stop {
          return outcome, frames;
        }
      }
      o, data := Unfinished, [];
    }

    lemma {:induction false} ComesEarlier(t: nat, was: bool, ready: bool, n: nat, k: nat)
      requires Comes(t, was, ready, k)
      ensures n < k ==> Comes(t, was, ready, n) && Xrun(FirstRead(t, was, ready) + 4 * n)
    {
      assert n < k ==> Restarts(FirstRead(t, was, ready) + 4 * n);
    }

    lemma {:induction false} NotEarlier(first: nat, n: nat, k: nat)
      requires Overruns(first, n) && Ok(first + 4 * k)
      ensures n <= k
    {}

    /** So it returns 0 if and only if one of its requests comes, after overruns and restarts, and succeeds. */
    lemma {:induction false} ReadSucceedsIff(t: nat, was: bool, ready: bool, n: nat, rounds: nat, o: Outcome, data: seq<T>, end: nat)
      requires n <= rounds && Overruns(FirstRead(t, was, ready), n) && (o == Unfinished <==> n == rounds)
      requires n < rounds ==> ReadEnds(t, was, ready, n, o, data, end)
      ensures o == Finished(0) <==>
                exists k :: 0 <= k < rounds && Comes(t, was, ready, k) && Ok(FirstRead(t, was, ready) + 4 * k)
    {
      forall k | 0 <= k < rounds && Comes(t, was, ready, k) && Ok(FirstRead(t, was, ready) + 4 * k)
        ensures o == Finished(0)
      {
        NotEarlier(FirstRead(t, was, ready), n, k);
        ComesEarlier(t, was, ready, n, k);
        assert k == n;
      }
    }

    /** pcm_avail_update. */
    method AvailUpdate() returns (avail: int)
      requires Valid() && synced
      modifies this`hwPtr, this`left, this`entered, this`clock, buffer
      ensures Valid()
      ensures old(left) <= left && old(entered) <= entered
      ensures capture ==> left == old(left)
      ensures !capture ==> entered == old(entered) && buffer[..] == old(buffer[..])
      ensures avail == (if Misread() then boundary else Avail()) && clock == old(clock) + 2
    {
      var _ := SyncPtr();
      avail := MmapAvail();
    }

    /** The stream is not running and has enough frames, as the library sees them, to be started. */
    ghost predicate Due(was: bool, avail: nat) { !was && Unsigned(bufferSize - avail) >= startThreshold }

    /** The time after a start that was due and succeeded. */
    ghost function AfterStart(t: nat, prepared: bool, due: bool): nat {
      if !due then t else if prepared then t + 2 else t + 3
    }

    /** A running stream has fewer frames available than it is to wake up for, and the caller wants more
        than those, or has not slept since it did. */
    ghost predicate Short(running: bool, wants: bool, count: nat, avail: nat) {
      running && avail < availMin && (count > avail || wants)
    }

    /** With the stream started if that was due, pcm_mmap_transfer sleeps. */
    ghost predicate Sleeps(was: bool, wants: bool, count: nat, avail: nat) {
      Short(was || Due(was, avail), was && wants, count, avail)
    }

    /** A start that is due fails, or a sleep does. */
    ghost predicate Fails(t: nat, was: bool, ready: bool, wants: bool, count: nat, avail: nat) {
      (Due(was, avail) && !Starts(t, ready)) ||
      (Sleeps(was, wants, count, avail) && kernel(AfterStart(t, ready, Due(was, avail))).wait < 0)
    }

    /** The part of pcm_mmap_transfer that starts the stream; the error if the kernel refuses. */
    method StartIfDue(avail: nat) returns (r: int)
      requires Valid() && synced && avail <= Avail() && avail <= bufferSize
      modifies this`running, this`prepared, this`waitForAvailMin, this`clock
      modifies this`hwPtr, this`left, this`entered, buffer
      ensures Valid() && (r == 0 ==> avail <= Avail())
      ensures r < 0 ==> Refused(r) && r == 0 - kernel(clock - 1).errno && !running
      ensures r < 0 <==> Due(old(running), avail) && !Starts(old(clock), old(prepared))
      ensures r == 0 ==> clock == AfterStart(old(clock), old(prepared), Due(old(running), avail))
      ensures r == 0 ==> (running <==> old(running) || Unsigned(bufferSize - avail) >= startThreshold)
      ensures r <= 0 && (r == 0 ==> waitForAvailMin == (old(waitForAvailMin) && (old(running) || !running)))
      ensures old(left) <= left && old(entered) <= entered
      ensures capture ==> left == old(left)
      ensures !capture ==> entered == old(entered)
    {
      r := 0;
      if !running && Unsigned(bufferSize - avail) >= startThreshold {
        var started := Start();
        if started < 0 {
          return 0 - kernel(clock - 1).errno;
        }
        waitForAvailMin := false;
      }
    }

    /** The part that sleeps until there is enough to do. */
    method WaitIfShort(count: nat, avail: nat) returns (next: Next)
      requires Valid() && synced && count > 0
      modifies this`running, this`prepared, this`waitForAvailMin, this`clock, this`synced, this`waits, this`applPtr
      ensures Valid() && (next.Return? <==> !synced) && old(waits) <= waits && old(clock) <= clock
      ensures next.Return? ==> Refused(next.code) && next.code == kernel(old(clock)).wait && !running && !prepared && applPtr == 0
      ensures next.Return? <==> Short(old(running), old(waitForAvailMin), count, avail) && kernel(old(clock)).wait < 0
      ensures !next.Return? ==> running == old(running)
      ensures !next.Return? ==> (next == Again <==> Short(running, old(waitForAvailMin), count, avail))
      ensures next == Again ==> !waitForAvailMin
      ensures next == Copy ==> waitForAvailMin == (old(waitForAvailMin) || (running && count > avail))
      ensures !next.Return? ==> waits == old(waits) + if next == Again then 1 else 0
    {
      if running {
        if !waitForAvailMin && count > avail {
          waitForAvailMin := true;
        }
        if waitForAvailMin && avail < availMin {
          waitForAvailMin := false;
          waits := waits + 1;
          clock := clock + 1;
          var wait := kernel(clock - 1).wait;
          if wait < 0 {
            prepared := false;
            running := false;
            applPtr := 0;
            synced := false;
            return Return(wait);
          }
          return Again;
        }
      }
      next := Copy;
    }

    /** Both, with sane thresholds never letting an empty-handed round go on to copy. A negative result is
        one the kernel gave. */
    method StartOrWait(count: nat, avail: nat) returns (next: Next)
      requires Valid() && synced && count > 0 && avail <= Avail() && avail <= bufferSize
      modifies this`running, this`prepared, this`waitForAvailMin, this`clock, this`synced, this`waits
      modifies this`hwPtr, this`applPtr, this`left, this`entered, buffer
      ensures Valid() && (next == Again || next == Copy ==> synced) && old(waits) <= waits
      ensures next.Return? ==> Refused(next.code) && !running
      ensures next.Return? <==> Fails(old(clock), old(running), old(prepared), old(waitForAvailMin), count, avail)
      ensures !next.Return? ==> (next == Again <==> Sleeps(old(running), old(waitForAvailMin), count, avail))
      ensures synced ==> avail <= Avail()
      ensures old(left) <= left && old(entered) <= entered
      ensures capture ==> left == old(left)
      ensures !capture ==> entered == old(entered)
      ensures !next.Return? ==> (running <==> old(running) || Unsigned(bufferSize - avail) >= startThreshold)
      ensures next == Again ==> !waitForAvailMin
      ensures next == Copy ==>
                waitForAvailMin == ((old(waitForAvailMin) && (old(running) || !running)) || (running && count > avail))
      ensures !next.Return? ==> waits == old(waits) + if next == Again then 1 else 0
      ensures startThreshold <= bufferSize && availMin >= 1 && avail == 0 ==> next != Copy
    {
      var r := StartIfDue(avail);
      if r < 0 {
        return Return(r);
      }
      next := WaitIfShort(count, avail);
    }

    /** A round of pcm_mmap_transfer once the available frames are known. */
    method CopyOrWait(buf: array<T>, offset: nat, count: nat, avail: nat) returns (stop: bool, o: Outcome, n: nat)
      requires Valid() && synced && buf != buffer && 0 < count && offset + count <= buf.Length
      requires avail <= Avail() && avail <= bufferSize
      modifies this`running, this`prepared, this`waitForAvailMin, this`clock, this`synced, this`waits
      modifies this`hwPtr, this`applPtr, this`left, this`entered, buffer, buf
      ensures Valid() && n <= count && !o.RingMisread?
      ensures var fails := Fails(old(clock), old(running), old(prepared), old(waitForAvailMin), count, avail);
              var sleeps := Sleeps(old(running), old(waitForAvailMin), count, avail);
              (stop <==> fails || (!sleeps && avail == 0)) && (stop ==> o.Finished? && (o.code < 0 <==> fails)) &&
              n == if stop || sleeps then 0 else Min(count, avail)
      ensures Moved(capture, old(entered), old(left), entered, left, old(buf[..]), buf[..], offset, offset + n)
      ensures startThreshold <= bufferSize && availMin >= 1 && stop ==> o != Finished(0)
      ensures if stop then !o.Unfinished? && Settled(o) else synced
      ensures !stop ==> n > 0 || waits == old(waits) + 1
      ensures old(waits) <= waits
    {
      var next := StartOrWait(count, avail);
      if next.Return? {
        return true, Finished(next.code), 0;
      }
      if next == Again {
        return false, Unfinished, 0;
      }
      var frames := if count > avail then avail else count;
      if frames == 0 {
        return true, Finished(0), 0;
      }
      ghost var e, l := entered, left;
      ghost var pieces;
      n, pieces := TransferAreas(buf, offset, frames);
      MovedLater(capture, old(entered), old(left), e, l, entered, left, old(buf[..]), buf[..], offset, offset + n);
      stop, o := false, Unfinished;
    }

    /** One round of pcm_mmap_transfer with frames left to move. The model stops at the misreading,
        which it recognises by more space than the ring has. */
    method TransferRound(buf: array<T>, offset: nat, count: nat) returns (stop: bool, o: Outcome, n: nat)
      requires Valid() && synced && buf != buffer && 0 < count && offset + count <= buf.Length
      modifies this`running, this`prepared, this`waitForAvailMin, this`clock, this`synced, this`waits
      modifies this`hwPtr, this`applPtr, this`left, this`entered, buffer, buf
      ensures Valid() && n <= count
      ensures Moved(capture, old(entered), old(left), entered, left, old(buf[..]), buf[..], offset, offset + n)
      ensures startThreshold <= bufferSize && availMin >= 1 && stop ==> o != Finished(0)
      ensures if stop then !o.Unfinished? && Settled(o) else synced
      ensures !stop ==> n > 0 || waits == old(waits) + 1
      ensures old(waits) <= waits
    {
      var avail := AvailUpdate();
      if avail > bufferSize {
        return true, RingMisread, 0;
      }
      if avail < 0 {
        assert false;
      }
      ghost var e, l := entered, left;
      stop, o, n := CopyOrWait(buf, offset, count, avail);
      MovedLater(capture, old(entered), old(left), e, l, entered, left, old(buf[..]), buf[..], offset, offset + n);
    }

    /** A round on top of what earlier rounds moved. */
    method RoundOn(buf: array<T>, moved: nat, count: nat, ghost e: seq<T>, ghost l: seq<T>, ghost b: seq<T>)
      returns (stop: bool, o: Outcome, n: nat)
      requires Valid() && synced && buf != buffer && 0 < count && moved + count <= buf.Length
      requires Moved(capture, e, l, entered, left, b, buf[..], 0, moved)
      modifies this`running, this`prepared, this`waitForAvailMin, this`clock, this`synced, this`waits
      modifies this`hwPtr, this`applPtr, this`left, this`entered, buffer, buf
      ensures Valid() && n <= count
      ensures Moved(capture, e, l, entered, left, b, buf[..], 0, moved + n)
      ensures startThreshold <= bufferSize && availMin >= 1 && stop ==> o != Finished(0)
      ensures if stop then !o.Unfinished? && Settled(o) else synced
      ensures !stop ==> n > 0 || waits == old(waits) + 1
      ensures old(waits) <= waits
    {
      ghost var e1, l1, b1 := entered, left, buf[..];
      stop, o, n := TransferRound(buf, moved, count);
      MovedTwice(capture, e, l, e1, l1, entered, left, b, b1, buf[..], 0, moved, moved + n);
    }

    /** The loop of pcm_mmap_transfer, for a number of rounds. */
    method TransferFrames(buf: array<T>, total: nat, rounds: nat) returns (o: Outcome, moved: nat)
      requires Valid() && synced && buf != buffer && total <= buf.Length
      modifies this`running, this`prepared, this`waitForAvailMin, this`clock, this`synced, this`waits
      modifies this`hwPtr, this`applPtr, this`left, this`entered, buffer, buf
      ensures Valid() && moved <= total && Settled(o)
      ensures Moved(capture, old(entered), old(left), entered, left, old(buf[..]), buf[..], 0, moved)
      ensures startThreshold <= bufferSize && availMin >= 1 && o == Finished(0) ==> moved == total
      ensures o == Unfinished ==> rounds <= moved + (waits - old(waits))
    {
      moved := 0;
      var count := total;
      ghost var e, l, b, w := entered, left, buf[..], waits;
      for round := 0 to rounds
        invariant Valid() && synced && moved + count == total && round <= moved + (waits - w)
        invariant Moved(capture, e, l, entered, left, b, buf[..], 0, moved)
      {
        if count == 0 {
          return Finished(0), moved;
        }
        var stop, outcome, n := RoundOn(buf, moved, count, e, l, b);
        moved, count := moved + n, count - n;
        if stop {
          return outcome, moved;
        }
      }
      o := if count == 0 then Finished(0) else Unfinished;
    }

    /** pcm_mmap_transfer, for a number of rounds of its loop. */
    method Transfer(buf: array<T>, bytes: nat, frameBytes: nat, rounds: nat) returns (o: Outcome, moved: nat)
      requires Valid() && synced && buf != buffer && frameBytes > 0 && bytes / frameBytes <= buf.Length
      modifies this`running, this`prepared, this`waitForAvailMin, this`clock, this`synced, this`waits
      modifies this`hwPtr, this`applPtr, this`left, this`entered, buffer, buf
      ensures Valid() && moved <= bytes / frameBytes
      ensures Moved(capture, old(entered), old(left), entered, left, old(buf[..]), buf[..], 0, moved)
      ensures startThreshold <= bufferSize && availMin >= 1 && o == Finished(0) ==> moved == bytes / frameBytes
      ensures Settled(o)
      ensures o == Unfinished ==> rounds <= moved + (waits - old(waits))
    {
      if bytes == 0 {
        return Finished(0), 0;
      }
      o, moved := TransferFrames(buf, bytes / frameBytes, rounds);
    }
  }

  lemma {:induction false} HwCell(h: nat, bufferSize: nat, boundary: nat)
    requires Geometry(bufferSize, boundary)
    ensures HwPtr(h, boundary) % bufferSize == h % bufferSize
  {
    var m := boundary / bufferSize;
    var k := h / boundary;
    assert h == h % boundary + boundary * k;
    assert boundary * k == bufferSize * (m * k) by { MultiplyAssociates(bufferSize, m, k); }
    MultipleMod(h % boundary, bufferSize, m * k);
  }

  /** A piece cut off by the end of the ring ends at the first cell. */
  lemma {:induction false} PieceEnds(a: nat, offset: nat, frames: nat, bufferSize: nat)
    requires bufferSize > 0 && offset == a % bufferSize && offset + frames <= bufferSize
    ensures offset + frames == bufferSize ==> (a + frames) % bufferSize == 0
  {
    if offset + frames == bufferSize {
      DivisionIsUnique(a + frames, bufferSize, a / bufferSize + 1, 0);
    }
  }

  lemma {:induction false} HwStep(h: nat, boundary: nat)
    requires boundary > 1
    ensures (HwPtr(h, boundary) + 1) % boundary == HwPtr(h + 1, boundary)
  {
    var q, r := h / boundary, h % boundary;
    if r + 1 < boundary {
      AddMod(h, boundary, 1);
      DivisionIsUnique(r + 1, boundary, 0, r + 1);
    } else {
      assert h + 1 == boundary * q + boundary == boundary * (q + 1);
      DivisionIsUnique(h + 1, boundary, q + 1, 0);
      DivisionIsUnique(boundary, boundary, 1, 0);
    }
  }
}
