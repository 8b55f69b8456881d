/** Where the tables of libsprdshim_ioctl.c are not a map, and a frame is rotated twice. */
module ColourForgets {
  import opened Options
  import opened Bytes
  import opened ColourProcess
  import opened ColourShim

  /** A present makes the table forget another buffer exactly when its own descriptor is new, no slot is
      free, and the round robin has come to that buffer's slot. */
  lemma {:induction false} ForgetsIff(t: Table, fd: int, other: int)
    requires Shaped(t) && Once(t.entries) && fd > 0 && other > 0 && fd != other && Find(t.entries, other, 0).Some?
    ensures Find(Slot(t, fd).0.entries, other, 0).None? <==>
              Find(t.entries, fd, 0).None? && Find(t.entries, 0, 0).None? && t.entries[t.rr].fd == other
  {
    var i := Find(t.entries, other, 0).value;
    var (u, k) := Slot(t, fd);
    if i != k {
      assert u.entries[i].fd == other;
    } else {
      forall j | 0 <= j < FDMAP && j != i ensures u.entries[j].fd != other {}
    }
  }

  lemma {:induction false} FindFirst(entries: seq<Entry>, fd: int, k: nat)
    requires k < |entries| && entries[k].fd == fd && forall j :: 0 <= j < k ==> entries[j].fd != fd
    ensures Find(entries, fd, 0) == Some(k)
  {
    var r := Find(entries, fd, 0);
  }

  /** The slot given to descriptor 0 is the first free one, before if there is one and afterwards. */
  lemma {:induction false} ZeroSlot(t: Table, u: Table, k: nat, e: Entry)
    requires Shaped(t) && k == Slot(t, 0).1 && e.fd == 0 && u.entries == t.entries[k := e]
    ensures Find(u.entries, 0, 0) == Some(k)
  {
    var r := Find(t.entries, 0, 0);
    FindFirst(u.entries, 0, k);
  }

  lemma {:induction false} ZeroPresent(t: Table, content: Bytes)
    requires Shaped(t)
    ensures var (u, c) := PresentTable(t, 0, content);
            var k := Slot(t, 0).1;
            u.entries == t.entries[k := Entry(0, Hash(c))] && Find(u.entries, 0, 0) == Some(k)
  {
    var (u, c) := PresentTable(t, 0, content);
    var (v, k) := Slot(t, 0);
    assert v.entries == t.entries[k := v.entries[k]];
    assert u.entries == t.entries[k := Entry(0, Hash(c))];
    ZeroSlot(t, u, k, Entry(0, Hash(c)));
  }

  /** Descriptor 0 looks like a free slot: what is left for it is kept exactly until the next new
      descriptor, which is given that slot. */
  lemma {:induction false} ZeroIsNotRemembered(t: Table, fd: int, content: Bytes)
    requires Shaped(t) && fd > 0
    ensures var u := PresentTable(t, 0, content).0;
            var k := Slot(t, 0).1;
            u.entries == t.entries[k := u.entries[k]] && u.entries[k].fd == 0 &&
            (Find(u.entries, fd, 0).None? ==> Slot(u, fd).1 == k) &&
            (Slot(u, fd).0.entries[k] == u.entries[k] <==> Find(u.entries, fd, 0).Some?)
  {
    ZeroPresent(t, content);
  }

  /** What every reachable table is like: no descriptor but 0 has two slots, and only the first free slot
      can hold a hash. */
  ghost predicate Tidy(t: Table) {
    Shaped(t) && Once(t.entries) && OnlyFirst(t.entries)
  }

  ghost predicate OnlyFirst(entries: seq<Entry>) {
    forall i, j :: 0 <= i < j < |entries| && entries[i].fd == 0 && entries[j].fd == 0 ==> entries[j].hash == 0
  }

  lemma {:induction false} SetTidy(t: Table, u: Table, k: nat, e: Entry)
    requires Tidy(t) && k < FDMAP && u.entries == t.entries[k := e] && u.rr < FDMAP
    requires e.fd != 0 ==> forall j :: 0 <= j < FDMAP && j != k ==> t.entries[j].fd != e.fd
    requires e.fd == 0 ==> forall j :: 0 <= j < k ==> t.entries[j].fd != 0
    requires e.fd == 0 && t.entries[k].fd != 0 ==> Find(t.entries, 0, 0).None?
    ensures Tidy(u)
  {}

  lemma {:induction false} PresentSets(t: Table, fd: int, content: Bytes)
    requires Shaped(t)
    ensures var (u, c) := PresentTable(t, fd, content);
            var k := Slot(t, fd).1;
            u.entries == t.entries[k := Entry(fd, Hash(c))] && u.entries[k] == Entry(fd, Hash(c))
  {
    var (v, k) := Slot(t, fd);
    assert v.entries == t.entries[k := v.entries[k]];
  }

  lemma {:induction false} PresentTidy(t: Table, fd: int, content: Bytes)
    requires Tidy(t) && fd >= 0
    ensures Tidy(PresentTable(t, fd, content).0)
  {
    var (u, c) := PresentTable(t, fd, content);
    var k := Slot(t, fd).1;
    PresentSets(t, fd, content);
    var r, z := Find(t.entries, fd, 0), Find(t.entries, 0, 0);
    if r.Some? && fd != 0 {
      forall j | 0 <= j < FDMAP && j != k ensures t.entries[j].fd != fd {}
    }
    SetTidy(t, u, k, Entry(fd, Hash(c)));
  }

  lemma {:induction false} RunTidy(t: Table, run: seq<Present>)
    requires Tidy(t) && forall i :: 0 <= i < |run| ==> run[i].fd >= 0
    ensures Tidy(RunTable(t, run).0)
    decreases |run|
  {
    if run != [] {
      PresentTidy(t, run[0].fd, run[0].content);
      RunTidy(PresentTable(t, run[0].fd, run[0].content).0, run[1..]);
    }
  }

  /** So it is with every table of a session. */
  lemma {:induction false} EveryTable(run: seq<Present>)
    requires forall i :: 0 <= i < |run| ==> run[i].fd >= 0
    ensures Tidy(RunTable(EMPTY, run).0)
  {
    RunTidy(EMPTY, run);
  }

  /** Presenting an untouched buffer: nothing happens if its slot is found with the hash of its contents,
      and with no hash it is turned again unless its contents hash to 0. */
  lemma {:induction false} Again(t: Table, fd: int, c: Bytes)
    requires Shaped(t)
    ensures var (u, k) := Slot(t, fd);
            PresentTable(t, fd, c).1 == if u.entries[k].hash == Hash(c) then c else Rotated(c)
  {}

  /** An untouched buffer with descriptor 0, presented again after one other buffer, is turned again
      exactly when the other's descriptor was new; a hash of 0 cannot be told from no hash. */
  lemma {:induction false} ZeroTurnedAgainIff(t: Table, content: Bytes, fd: int, other: Bytes)
    requires Tidy(t) && fd > 0
    ensures var (u, c) := PresentTable(t, 0, content);
            var v := PresentTable(u, fd, other).0;
            PresentTable(v, 0, c).1 == if Find(u.entries, fd, 0).None? && Hash(c) != 0 then Rotated(c) else c
  {
    var (u, c) := PresentTable(t, 0, content);
    var (v, d) := PresentTable(u, fd, other);
    var k := Slot(t, 0).1;
    PresentTidy(t, 0, content);
    ZeroPresent(t, content);
    PresentSets(u, fd, other);
    SecondZero(u, v, k, fd, Slot(u, fd).1, Entry(fd, Hash(d)), Hash(c));
    Again(v, 0, c);
  }

  lemma {:induction false} SecondZero(u: Table, v: Table, k: nat, fd: int, i: nat, e: Entry, h: Word32)
    requires Tidy(u) && Shaped(v) && fd > 0 && Find(u.entries, 0, 0) == Some(k) && u.entries[k].hash == h
    requires i == Slot(u, fd).1 && v.entries == u.entries[i := e] && e.fd == fd
    ensures var (w, j) := Slot(v, 0); w.entries[j].hash == if Find(u.entries, fd, 0).None? then 0 else h
  {
    var z := Find(v.entries, 0, 0);
    if Find(u.entries, fd, 0).Some? {
      assert u.entries[i].fd == fd;
      FindFirst(v.entries, 0, k);
    } else {
      assert i == k;
      if z.Some? {
        assert v.entries[z.value] == u.entries[z.value];
      }
    }
  }

  /** An untouched buffer, presented again after one other buffer, is turned again exactly when the other's
      descriptor was one too many and pushed it out. */
  lemma {:induction false} TurnedAgainIff(t: Table, fd: int, content: Bytes, other: int, c: Bytes)
    requires Tidy(t) && fd > 0 && other > 0 && fd != other && Find(t.entries, other, 0).Some?
    requires t.entries[Find(t.entries, other, 0).value].hash == Hash(c)
    ensures var v := PresentTable(t, fd, content).0;
            var pushedOut := Find(t.entries, fd, 0).None? && Find(t.entries, 0, 0).None? && t.entries[t.rr].fd == other;
            PresentTable(v, other, c).1 == if pushedOut && Hash(c) != 0 then Rotated(c) else c
  {
    var (v, d) := PresentTable(t, fd, content);
    PresentTidy(t, fd, content);
    PresentSets(t, fd, content);
    SecondOther(t, v, fd, other, Slot(t, fd).1, Entry(fd, Hash(d)), Hash(c));
    Again(v, other, c);
  }

  lemma {:induction false} SecondOther(t: Table, v: Table, fd: int, other: int, i: nat, e: Entry, h: Word32)
    requires Tidy(t) && Tidy(v) && fd > 0 && other > 0 && fd != other && Find(t.entries, other, 0).Some?
    requires t.entries[Find(t.entries, other, 0).value].hash == h
    requires i == Slot(t, fd).1 && v.entries == t.entries[i := e] && e.fd == fd
    ensures var (w, j) := Slot(v, other);
            var pushedOut := Find(t.entries, fd, 0).None? && Find(t.entries, 0, 0).None? && t.entries[t.rr].fd == other;
            w.entries[j].hash == if pushedOut then 0 else h
  {
    var x := Find(t.entries, other, 0).value;
    if i != x {
      assert v.entries[x] == t.entries[x];
      FindIs(v.entries, other, x);
    } else {
      forall j | 0 <= j < FDMAP ensures v.entries[j].fd != other {}
    }
  }

  // ---------- Buffers that are turned twice ----------

  /** A table that has seen nothing yet. */
  ghost predicate Unused(t: Table) {
    Shaped(t) && forall i :: 0 <= i < FDMAP ==> t.entries[i] == Entry(0, 0)
  }

  lemma {:induction false} FirstPresent(t: Table, fd: int, content: Bytes)
    requires Unused(t) && Hash(content) != 0
    ensures Tidy(t) && PresentTable(t, fd, content).1 == Rotated(content)
    ensures forall g :: g != fd && g != 0 ==> Find(PresentTable(t, fd, content).0.entries, g, 0).None?
  {
    var u := PresentTable(t, fd, content).0;
    Again(t, fd, content);
    PresentSets(t, fd, content);
    assert forall i :: 0 <= i < FDMAP ==> u.entries[i].fd == 0 || u.entries[i].fd == fd;
  }

  /** Buffer 0, any new buffer, and buffer 0 again as it was left: it is turned a second time. */
  lemma {:induction false} ZeroIsTurnedTwice(t: Table, content: Bytes, fd: int, other: Bytes)
    requires Unused(t) && fd > 0 && Hash(content) != 0 && Hash(Rotated(content)) != 0
    ensures var (u, c) := PresentTable(t, 0, content);
            var v := PresentTable(u, fd, other).0;
            c == Rotated(content) && PresentTable(v, 0, c).1 == Rotated(Rotated(content))
  {
    FirstPresent(t, 0, content);
    ZeroTurnedAgainIff(t, content, fd, other);
  }

  /** The table after descriptors 1 to n with the same contents. */
  function Filled(n: nat, h: Word32): (t: Table)
    ensures |t.entries| == FDMAP && forall i :: 0 <= i < FDMAP ==> t.entries[i] == if i < n then Entry(i + 1, h) else Entry(0, 0)
  {
    Table(seq(FDMAP, i => if i < n then Entry(i + 1, h) else Entry(0, 0)), 0)
  }

  lemma {:induction false} OneMore(n: nat, content: Bytes, h: Word32)
    requires n < FDMAP && Hash(content) != 0 && h == Hash(Rotated(content))
    ensures PresentTable(Filled(n, h), n + 1, content) == (Filled(n + 1, h), Rotated(content))
  {
    var t, u := Filled(n, h), Filled(n + 1, h);
    FindFirst(t.entries, 0, n);
    assert Find(t.entries, n + 1, 0).None?;
    assert t.entries[n := Entry(n + 1, 0)][n := Entry(n + 1, h)] == u.entries;
  }

  lemma {:induction false} FullTidy(t: Table, h: Word32)
    requires t == Filled(FDMAP, h)
    ensures Tidy(t) && t.rr == 0 && t.entries[0] == Entry(1, h) && Find(t.entries, 1, 0) == Some(0)
    ensures Find(t.entries, 25, 0).None? && Find(t.entries, 0, 0).None?
  {
    FindFirst(t.entries, 1, 0);
  }

  lemma {:induction false} EmptyIsFilled(t: Table, h: Word32)
    requires t == EMPTY
    ensures Unused(t) && t == Filled(0, h)
  {
    assert t.entries == Filled(0, h).entries;
  }

  /** The buffers 1 to 24, one after the other from the empty table on, then buffer 25, and buffer 1 again
      as it was left: it is turned a second time. */
  lemma {:induction false} TurnedTwice(content: Bytes, h: Word32, other: Bytes)
    requires Hash(content) != 0 && h == Hash(Rotated(content)) != 0
    ensures Filled(0, h) == EMPTY
    ensures forall n: nat :: n < FDMAP ==> PresentTable(Filled(n, h), n + 1, content) == (Filled(n + 1, h), Rotated(content))
    ensures var v := PresentTable(Filled(FDMAP, h), 25, other).0;
            PresentTable(v, 1, Rotated(content)).1 == Rotated(Rotated(content))
  {
    EmptyIsFilled(EMPTY, h);
    forall n: nat | n < FDMAP
      ensures PresentTable(Filled(n, h), n + 1, content) == (Filled(n + 1, h), Rotated(content))
    {
      OneMore(n, content, h);
    }
    var full := Filled(FDMAP, h);
    FullTidy(full, h);
    TurnedAgainIff(full, 25, other, 1, Rotated(content));
  }

  // ---------- Which buffer is forgotten ----------

  /** The table after new buffers claimed their slots one after the other. */
  function Claims(t: Table, fds: seq<int>): (u: Table)
    requires Shaped(t)
    ensures Shaped(u)
    decreases |fds|
  {
    if fds == [] then t else Slot(Claims(t, fds[..|fds| - 1]), fds[|fds| - 1]).0
  }

  /** How far slot k lies behind the slot rr, going round. */
  function Behind(rr: nat, k: nat): (d: int)
    requires rr < 24 && k < 24
    ensures 0 <= d < 24 && (rr + d) % 24 == k
  {
    if k >= rr then k - rr else k + 24 - rr
  }

  /** The slots behind g_fdrr have been claimed, one for each new buffer, and no other. */
  ghost predicate WentRound(t: Table, fds: seq<int>, u: Table)
    requires Shaped(t) && Shaped(u)
  {
    u.rr == (t.rr + |fds|) % 24 &&
    forall k :: 0 <= k < 24 ==> u.entries[k] == if Behind(t.rr, k) < |fds| then Entry(fds[Behind(t.rr, k)], 0) else t.entries[k]
  }

  /** Descriptors that have no slot yet, each of them once, for a table without a free slot. */
  ghost predicate New(t: Table, fds: seq<int>)
    requires Shaped(t)
  {
    (forall k :: 0 <= k < 24 ==> t.entries[k].fd != 0 && t.entries[k].fd !in fds) &&
    (forall i :: 0 <= i < |fds| ==> fds[i] != 0) && (forall i, j :: 0 <= i < j < |fds| ==> fds[i] != fds[j])
  }

  /** In a table without a free slot buffers are forgotten in turn: each of the next 24 new ones takes
      another slot, in a circle from g_fdrr on, so that a buffer is remembered as long as possible. */
  lemma {:induction false} ForgottenInTurn(t: Table, fds: seq<int>)
    requires Shaped(t) && |fds| <= 24 && New(t, fds)
    ensures WentRound(t, fds, Claims(t, fds))
    decreases |fds|
  {
    if fds != [] {
      var n := |fds| - 1;
      ForgottenInTurn(t, fds[..n]);
      NextInTurn(t, fds, n, Claims(t, fds[..n]), fds[n]);
    }
  }

  lemma {:induction false} NextInTurn(t: Table, fds: seq<int>, n: nat, u: Table, fd: int)
    requires Shaped(t) && |fds| == n + 1 <= 24 && New(t, fds) && Shaped(u) && WentRound(t, fds[..n], u) && fd == fds[n]
    ensures WentRound(t, fds, Slot(u, fd).0)
  {
    NotYetThere(t, fds, n, u, fd);
    assert Slot(u, fd).0 == Table(u.entries[u.rr := Entry(fd, 0)], (u.rr + 1) % 24);
    forall k | 0 <= k < 24
      ensures u.entries[u.rr := Entry(fd, 0)][k] == if Behind(t.rr, k) < n + 1 then Entry(fds[Behind(t.rr, k)], 0) else t.entries[k]
    {
      OnlyNext(t.rr, n, k);
    }
  }

  /** The next slot is the n-th in the circle. */
  lemma {:induction false} OnlyNext(rr: nat, n: nat, k: nat)
    requires rr < 24 && n < 24 && k < 24
    ensures Behind(rr, k) == n <==> k == (rr + n) % 24
  {}

  lemma {:induction false} NotYetThere(t: Table, fds: seq<int>, n: nat, u: Table, fd: int)
    requires Shaped(t) && |fds| == n + 1 <= 24 && New(t, fds) && Shaped(u) && WentRound(t, fds[..n], u) && fd == fds[n]
    ensures Find(u.entries, fd, 0).None? && Find(u.entries, 0, 0).None? && u.rr == (t.rr + n) % 24
  {
    forall k | 0 <= k < 24 ensures u.entries[k].fd != fd && u.entries[k].fd != 0 {
      var d := Behind(t.rr, k);
      assert d < n ==> fds[..n][d] == fds[d];
    }
  }

  lemma {:induction false} TailOfPixel(h: Word32, c: Bytes)
    requires |c| == 4 && h == 0
    ensures Tail(h, c) == Word(c)
  {
    WordsFit(c);
    assert Tail(h, c[..0]) == h && c[0..] == c;
  }

  lemma {:induction false} FoldOfNone(a: Lanes)
    requires a.l0 == 0 && a.l1 == 0 && a.l2 == 0 && a.l3 == 0
    ensures Fold(a) == 0
  {
    assert Wrap(a.l1 * 2246822519) == 0 && Wrap(a.l2 * 3266489917) == 0 && Wrap(a.l3 * 668265263) == 0;
  }

  /** Such contents: one red pixel, which turns blue and then green. */
  lemma {:induction false} OnePixel(c: Bytes)
    requires |c| == 4
    ensures Hash(c) == Word(c) && Rotated(c) == Turn(c)
  {
    var n := Whole(|c|);
    var a := Blocks(c[..n]);
    FoldOfNone(a);
    HashIs(c, n, a, Fold(a));
    assert c[n..] == c;
    TailOfPixel(Fold(a), c);
    RotatedMore(c[..n], c);
    assert c[..n] + c == c && Rotated(c[..n]) + Turn(c) == Turn(c);
  }

  lemma {:induction false} RedIsTurned(c: Bytes, d: Bytes)
    requires c == [1, 0, 0, 0] && d == [0, 0, 1, 0]
    ensures Hash(c) == 1 && Hash(Rotated(c)) == 0x1_0000 && Rotated(c) == d && Rotated(d) == [0, 1, 0, 0]
  {
    OnePixel(c);
    OnePixel(d);
  }
}
