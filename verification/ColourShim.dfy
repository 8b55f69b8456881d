/** The tables of libsprdshim_ioctl.c that remember what was left in each buffer, so that a frame is
    rotated once however often it is presented. */
module ColourShim {
  import opened Options
  import opened Bytes
  import opened ColourProcess

  const FDMAP := 24
  const PHYSMAP := 16

  /** A slot of g_fd; descriptor 0 stands for a free one. */
  datatype Entry = Entry(fd: int, hash: Word32)

  /** g_fd and g_fdrr. */
  datatype Table = Table(entries: seq<Entry>, rr: nat)

  ghost predicate Shaped(t: Table) { |t.entries| == FDMAP && t.rr < FDMAP }

  const EMPTY := Table(seq(FDMAP, i => Entry(0, 0)), 0)

  /** The first slot from i on with this descriptor. */
  function Find(entries: seq<Entry>, fd: int, i: nat): (r: Option<nat>)
    requires i <= |entries|
    ensures match r
            case Some(k) => i <= k < |entries| && entries[k].fd == fd && forall j :: i <= j < k ==> entries[j].fd != fd
            case None => forall j :: i <= j < |entries| ==> entries[j].fd != fd
    decreases |entries| - i
  {
    if i == |entries| then None else if entries[i].fd == fd then Some(i) else Find(entries, fd, i + 1)
  }

  /** fd_slot: the slot, and the table with it claimed. */
  function Slot(t: Table, fd: int): (r: (Table, nat))
    requires Shaped(t)
    ensures Shaped(r.0) && r.1 < FDMAP && r.0.entries[r.1].fd == fd
  {
    match Find(t.entries, fd, 0)
    case Some(k) => (t, k)
    case None =>
      match Find(t.entries, 0, 0)
      case Some(k) => (t.(entries := t.entries[k := Entry(fd, 0)]), k)
      case None => (Table(t.entries[t.rr := Entry(fd, 0)], (t.rr + 1) % FDMAP), t.rr)
  }

  /** One present of a buffer: rotate it unless it holds what was left in it. */
  function PresentTable(t: Table, fd: int, content: Bytes): (r: (Table, Bytes))
    requires Shaped(t)
    ensures Shaped(r.0)
  {
    var (u, k) := Slot(t, fd);
    if u.entries[k].hash == Hash(content) then (u, content)
    else (u.(entries := u.entries[k := Entry(fd, Hash(Rotated(content)))]), Rotated(content))
  }

  datatype Phys = Phys(phys: nat, fd: int, len: nat)

  /** What handle_layer and handle_osd look at before they touch pixels. */
  function LayerPixels(enabled: bool, shareFd: int, pitch: nat, rectH: nat): Option<nat> {
    if !enabled || shareFd <= 0 || pitch == 0 || rectH == 0 then None else Some(Wrap(pitch * rectH))
  }

  /** The first record of a physical address. */
  function FindPhys(phys: seq<Phys>, buffer: nat, i: nat): (r: Option<nat>)
    requires i <= |phys|
    ensures match r
            case Some(k) => i <= k < |phys| && phys[k].phys == buffer && forall j :: i <= j < k ==> phys[j].phys != buffer
            case None => forall j :: i <= j < |phys| ==> phys[j].phys != buffer
    decreases |phys| - i
  {
    if i == |phys| then None else if phys[i].phys == buffer then Some(i) else FindPhys(phys, buffer, i + 1)
  }

  // ---------- The methods of the source ----------

  class Shim {
    const gFd: array<Entry>
    var gFdrr: nat
    const gPhys: array<Phys>

    ghost predicate Valid() reads this, gFd {
      gFd.Length == FDMAP && gFdrr < FDMAP && gPhys.Length == PHYSMAP
    }

    ghost function State(): Table reads this, gFd {
      Table(gFd[..], gFdrr)
    }

    constructor ()
      ensures Valid() && State() == EMPTY && fresh(gFd) && fresh(gPhys) && gFd.Length == 24 && gPhys.Length == 16
    {
      gFd := new Entry[FDMAP](_ => Entry(0, 0));
      gPhys := new Phys[PHYSMAP](_ => Phys(0, 0, 0));
      gFdrr := 0;
    }

    /** fd_slot. */
    method FdSlot(fd: int) returns (k: nat)
      requires Valid()
      modifies this`gFdrr, gFd
      ensures Valid() && (State(), k) == Slot(old(State()), fd)
    {
      var freei := -1;
      for i := 0 to FDMAP
        invariant -1 <= freei < i && Find(gFd[..], fd, 0) == Find(gFd[..], fd, i)
        invariant Find(gFd[..], 0, 0) == if freei < 0 then Find(gFd[..], 0, i) else Some(freei)
      {
        if gFd[i].fd == fd {
          return i;
        }
        if freei < 0 && gFd[i].fd == 0 {
          freei := i;
        }
      }
      if freei < 0 {
        freei := gFdrr;
        gFdrr := (gFdrr + 1) % FDMAP;
      }
      gFd[freei] := Entry(fd, 0);
      k := freei;
    }

    /** The part of handle_layer and handle_osd between mmap and munmap; the pixels of a frame are the
        first 4 * npix bytes of the mapping. The result says whether the frame was rotated. */
    method PresentBuffer(fd: int, m: array<Byte>, npix: nat) returns (rot: bool)
      requires Valid() && 4 * npix <= m.Length
      modifies this`gFdrr, gFd, m
      ensures Valid() && m[4 * npix..] == old(m[4 * npix..])
      ensures (State(), m[..4 * npix]) == PresentTable(old(State()), fd, old(m[..4 * npix]))
      ensures var (u, k) := Slot(old(State()), fd); rot == (u.entries[k].hash != Hash(old(m[..4 * npix])))
    {
      var slot := FdSlot(fd);
      var h := Process(m, npix, false);
      rot := false;
      if gFd[slot].hash != h {
        h := Process(m, npix, true);
        gFd[slot] := gFd[slot].(hash := h);
        rot := true;
      }
    }

    /** handle_layer; the mapping is null when mmap fails. */
    method HandleLayer(layerEn: bool, shareFd: int, pitch: nat, rectH: nat, m: array?<Byte>)
      requires Valid()
      requires var n := LayerPixels(layerEn, shareFd, pitch, rectH); n.Some? && m != null ==> 4 * n.value <= m.Length
      modifies this`gFdrr, gFd, m
      ensures Valid()
      ensures var n := LayerPixels(layerEn, shareFd, pitch, rectH);
              if n.None? || m == null
              then State() == old(State()) && (m != null ==> m[..] == old(m[..]))
              else (State(), m[..4 * n.value]) == PresentTable(old(State()), shareFd, old(m[..4 * n.value])) &&
                   m[4 * n.value..] == old(m[4 * n.value..])
      ensures if !layerEn || shareFd <= 0 || pitch == 0 || rectH == 0 || m == null then State() == old(State())
              else 4 * (pitch * rectH % UINT32) <= m.Length &&
                   (State(), m[..4 * (pitch * rectH % UINT32)]) ==
                     PresentTable(old(State()), shareFd, old(m[..4 * (pitch * rectH % UINT32)]))
    {
      WrapIsModulo(pitch * rectH);
      if !layerEn || shareFd <= 0 || pitch == 0 || rectH == 0 {
        return;
      }
      var npix := Wrap(pitch * rectH);
      if m == null {
        return;
      }
      var rot := PresentBuffer(shareFd, m, npix);
    }

    /** handle_osd on its rotate path: the descriptor comes from the record of the physical address. */
    method HandleOsd(osdRgb: bool, buffer: nat, w: nat, h: nat, m: array?<Byte>)
      requires Valid() && (m != null ==> 4 * (w * h) <= m.Length)
      modifies this`gFdrr, gFd, m
      ensures Valid()
      ensures var k := FindPhys(gPhys[..], buffer, 0);
              if !osdRgb || buffer == 0 || w == 0 || h == 0 || m == null || k.None? || gPhys[k.value].fd < 0
              then State() == old(State()) && (m != null ==> m[..] == old(m[..]))
              else (State(), m[..4 * (w * h)]) == PresentTable(old(State()), gPhys[k.value].fd, old(m[..4 * (w * h)])) &&
                   m[4 * (w * h)..] == old(m[4 * (w * h)..])
    {
      if !osdRgb {
        return;
      }
      if buffer == 0 || w == 0 || h == 0 {
        return;
      }
      var idx := -1;
      var i := 0;
      while i < PHYSMAP && idx < 0
        invariant 0 <= i <= PHYSMAP && -1 <= idx < PHYSMAP
        invariant FindPhys(gPhys[..], buffer, 0) == if idx < 0 then FindPhys(gPhys[..], buffer, i) else Some(idx)
        decreases PHYSMAP - i
      {
        if gPhys[i].phys == buffer {
          idx := i;
        }
        i := i + 1;
      }
      var bfd := if idx >= 0 then gPhys[idx].fd else -1;
      if bfd < 0 {
        return;
      }
      if m == null {
        return;
      }
      var rot := PresentBuffer(bfd, m, w * h);
    }
  }

  // ---------- The table as an unbounded map ----------

  function Value(m: map<int, Word32>, fd: int): Word32 {
    if fd in m then m[fd] else 0
  }

  /** What the table stands for: the hash left in each buffer, 0 for one never seen. */
  function PresentMap(m: map<int, Word32>, fd: int, content: Bytes): (map<int, Word32>, Bytes) {
    if Value(m, fd) == Hash(content) then (m[fd := Value(m, fd)], content)
    else (m[fd := Hash(Rotated(content))], Rotated(content))
  }

  ghost predicate Once(entries: seq<Entry>) {
    forall i, j :: 0 <= i < j < |entries| && entries[i].fd != 0 ==> entries[i].fd != entries[j].fd
  }

  ghost predicate Refines(t: Table, m: map<int, Word32>) {
    Shaped(t) && Once(t.entries) &&
    (forall i :: 0 <= i < FDMAP && t.entries[i].fd != 0 ==> t.entries[i].fd in m && m[t.entries[i].fd] == t.entries[i].hash) &&
    (forall fd :: fd in m ==> fd > 0 && Find(t.entries, fd, 0).Some?)
  }

  lemma {:induction false} Descriptors(entries: seq<Entry>, n: nat, keys: set<int>)
    requires n <= |entries| && Once(entries)
    requires forall i :: 0 <= i < n ==> entries[i].fd != 0 && entries[i].fd in keys
    ensures |keys| >= n
    decreases n
  {
    if n > 0 {
      Descriptors(entries, n - 1, keys - {entries[n - 1].fd});
    }
  }

  /** Fewer descriptors than slots leave a free slot. */
  lemma {:induction false} HasFree(t: Table, m: map<int, Word32>)
    requires Refines(t, m) && |m.Keys| < FDMAP
    ensures Find(t.entries, 0, 0).Some?
  {
    if Find(t.entries, 0, 0).None? {
      Descriptors(t.entries, FDMAP, m.Keys);
    }
  }

  lemma {:induction false} FindIs(entries: seq<Entry>, fd: int, k: nat)
    requires Once(entries) && fd != 0 && k < |entries| && entries[k].fd == fd
    ensures Find(entries, fd, 0) == Some(k)
  {}

  lemma {:induction false} SlotOfKnown(t: Table, m: map<int, Word32>, fd: int)
    requires Refines(t, m) && fd in m
    ensures var (u, k) := Slot(t, fd); u == t && u.entries[k].hash == m[fd]
  {
    FindIs(t.entries, fd, Slot(t, fd).1);
  }

  lemma {:induction false} SlotOfNew(t: Table, m: map<int, Word32>, fd: int)
    requires Refines(t, m) && fd > 0 && fd !in m && |m.Keys + {fd}| <= FDMAP
    ensures var (u, k) := Slot(t, fd); Refines(u, m[fd := 0]) && u.entries[k].hash == 0
  {
    var (u, k) := Slot(t, fd);
    assert |m.Keys + {fd}| == |m.Keys| + 1;
    HasFree(t, m);
    Claimed(t, m, fd, k);
  }

  /** fd_slot on a table with room: the slot holds the map's value and no other descriptor's changes. */
  lemma {:induction false} SlotIsEntry(t: Table, m: map<int, Word32>, fd: int)
    requires Refines(t, m) && fd > 0 && |m.Keys + {fd}| <= FDMAP
    ensures var (u, k) := Slot(t, fd); Refines(u, m[fd := Value(m, fd)]) && u.entries[k].hash == Value(m, fd)
  {
    if fd in m {
      SlotOfKnown(t, m, fd);
      assert m[fd := m[fd]] == m;
    } else {
      SlotOfNew(t, m, fd);
    }
  }

  lemma {:induction false} Claimed(t: Table, m: map<int, Word32>, fd: int, k: nat)
    requires Refines(t, m) && fd > 0 && fd !in m && k < FDMAP && t.entries[k].fd == 0
    ensures Refines(t.(entries := t.entries[k := Entry(fd, 0)]), m[fd := 0])
  {
    var es := t.entries[k := Entry(fd, 0)];
    forall i, j | 0 <= i < j < |es| && es[i].fd != 0 ensures es[i].fd != es[j].fd {}
    forall g | g in m[fd := 0] ensures g > 0 && Find(es, g, 0).Some? {
      if g != fd {
        var i := Find(t.entries, g, 0).value;
        assert es[i].fd == g;
      } else {
        assert es[k].fd == g;
      }
    }
  }

  lemma {:induction false} Stored(t: Table, m: map<int, Word32>, fd: int, k: nat, h: Word32)
    requires Refines(t, m) && fd > 0 && k < FDMAP && t.entries[k].fd == fd
    ensures Refines(t.(entries := t.entries[k := Entry(fd, h)]), m[fd := h])
  {
    var es := t.entries[k := Entry(fd, h)];
    forall g | g in m[fd := h] ensures g > 0 && Find(es, g, 0).Some? {
      if g != fd {
        var i := Find(t.entries, g, 0).value;
        assert es[i].fd == g;
      } else {
        assert es[k].fd == g;
      }
    }
  }

  lemma {:induction false} PresentRefines(t: Table, m: map<int, Word32>, fd: int, content: Bytes)
    requires Refines(t, m) && fd > 0 && |m.Keys + {fd}| <= FDMAP
    ensures var (u, c) := PresentTable(t, fd, content);
            var (n, d) := PresentMap(m, fd, content);
            Refines(u, n) && c == d && n.Keys == m.Keys + {fd}
  {
    SlotIsEntry(t, m, fd);
    var (u, k) := Slot(t, fd);
    var n := m[fd := Value(m, fd)];
    Stored(u, n, fd, k, Hash(Rotated(content)));
    assert n[fd := Hash(Rotated(content))] == m[fd := Hash(Rotated(content))];
  }

  // ---------- Runs ----------

  /** A buffer presented with what its client rendered into it, or left as it was. */
  datatype Present = Present(fd: int, content: Bytes)

  function Fds(run: seq<Present>): set<int>
    decreases |run|
  {
    if run == [] then {} else {run[0].fd} + Fds(run[1..])
  }

  ghost predicate Positive(s: set<int>) {
    forall fd :: fd in s ==> fd > 0
  }

  function RunTable(t: Table, run: seq<Present>): (r: (Table, seq<Bytes>))
    requires Shaped(t)
    ensures Shaped(r.0)
    decreases |run|
  {
    if run == [] then (t, [])
    else
      var (u, c) := PresentTable(t, run[0].fd, run[0].content);
      var (v, rest) := RunTable(u, run[1..]);
      (v, [c] + rest)
  }

  function RunMap(m: map<int, Word32>, run: seq<Present>): (map<int, Word32>, seq<Bytes>)
    decreases |run|
  {
    if run == [] then (m, [])
    else
      var (n, c) := PresentMap(m, run[0].fd, run[0].content);
      var (o, rest) := RunMap(n, run[1..]);
      (o, [c] + rest)
  }

  lemma {:induction false} SubsetSize(a: set<int>, b: set<int>)
    requires a <= b
    ensures |a| <= |b|
  {
    assert |b - a| + |a| == |b|;
  }

  /** With at most 24 descriptors the table is an unbounded map with default 0: over every run, every
      buffer is left the same. */
  lemma {:induction false} TableIsMap(t: Table, m: map<int, Word32>, run: seq<Present>)
    requires Refines(t, m) && Positive(Fds(run)) && |m.Keys + Fds(run)| <= FDMAP
    ensures Refines(RunTable(t, run).0, RunMap(m, run).0) && RunTable(t, run).1 == RunMap(m, run).1
    ensures RunMap(m, run).0.Keys == m.Keys + Fds(run)
    decreases |run|
  {
    if run != [] {
      FirstRefines(t, m, run);
      TableIsMap(PresentTable(t, run[0].fd, run[0].content).0, PresentMap(m, run[0].fd, run[0].content).0, run[1..]);
    }
  }

  lemma {:induction false} FirstRefines(t: Table, m: map<int, Word32>, run: seq<Present>)
    requires Refines(t, m) && run != [] && Positive(Fds(run)) && |m.Keys + Fds(run)| <= FDMAP
    ensures var (u, c) := PresentTable(t, run[0].fd, run[0].content);
            var (n, d) := PresentMap(m, run[0].fd, run[0].content);
            Refines(u, n) && c == d && n.Keys + Fds(run[1..]) == m.Keys + Fds(run) && Positive(Fds(run[1..]))
  {
    assert run[0].fd in Fds(run);
    SubsetSize(m.Keys + {run[0].fd}, m.Keys + Fds(run));
    PresentRefines(t, m, run[0].fd, run[0].content);
  }

  lemma {:induction false} EmptyRefines()
    ensures Refines(EMPTY, map[])
  {}

  /** From the start: over every run of at most 24 buffers the table and the map agree. */
  lemma {:induction false} EveryRun(run: seq<Present>)
    requires Positive(Fds(run)) && |Fds(run)| <= FDMAP
    ensures RunTable(EMPTY, run).1 == RunMap(map[], run).1
  {
    EmptyRefines();
    var m: map<int, Word32> := map[];
    assert m.Keys + Fds(run) == Fds(run);
    TableIsMap(EMPTY, m, run);
  }

  lemma {:induction false} OthersKeepValue(m: map<int, Word32>, fd: int, run: seq<Present>)
    requires fd !in Fds(run)
    ensures Value(RunMap(m, run).0, fd) == Value(m, fd)
    decreases |run|
  {
    if run != [] {
      OthersKeepValue(PresentMap(m, run[0].fd, run[0].content).0, fd, run[1..]);
    }
  }

  /** After a present the buffer's slot holds the hash of what is in the buffer. */
  lemma {:induction false} PresentLeavesHash(m: map<int, Word32>, fd: int, content: Bytes)
    ensures var (n, c) := PresentMap(m, fd, content);
            Value(n, fd) == Hash(c) && c == if Value(m, fd) == Hash(content) then content else Rotated(content)
  {}

  /** Presenting a buffer again that nobody touched changes neither the buffer nor the table, whatever
      other buffers were presented in between, as long as there are at most 24 in all. */
  lemma {:induction false} RotatedOnce(t: Table, m: map<int, Word32>, fd: int, content: Bytes, between: seq<Present>)
    requires Refines(t, m) && fd > 0 && fd !in Fds(between) && Positive(Fds(between))
    requires |m.Keys + {fd} + Fds(between)| <= FDMAP
    ensures var (u, c) := PresentTable(t, fd, content);
            var v := RunTable(u, between).0;
            PresentTable(v, fd, c) == (v, c)
  {
    SubsetSize(m.Keys + {fd}, m.Keys + {fd} + Fds(between));
    PresentRefines(t, m, fd, content);
    var u, n := PresentTable(t, fd, content).0, PresentMap(m, fd, content).0;
    TableIsMap(u, n, between);
    OthersKeepValue(n, fd, between);
    PresentLeavesHash(m, fd, content);
    var v, o := RunTable(u, between).0, RunMap(n, between).0;
    assert Find(v.entries, fd, 0).Some?;
    var k := Find(v.entries, fd, 0).value;
    assert v.entries[k].hash == Value(o, fd);
  }
}
