/** The first half of elfload_open (elfload.c): where the segments of a library go in memory. */
module ElfLayout {
  import opened Options
  import opened Bytes

  const PT_LOAD := 1
  const PT_DYNAMIC := 2
  const PAGE := 4096
  const NOWHERE := 0xFFFF_FFFF

  /** A program header; all fields are 32-bit words. */
  datatype Phdr = Phdr(kind: nat, vaddr: nat, memsz: nat, offset: nat, filesz: nat)

  ghost predicate Words(ph: seq<Phdr>) {
    forall i :: 0 <= i < |ph| ==>
      ph[i].vaddr < 0x1_0000_0000 && ph[i].memsz < 0x1_0000_0000 && ph[i].filesz < 0x1_0000_0000 && ph[i].offset < 0x1_0000_0000
  }

  /** Addition of 32-bit words. */
  function Add(x: nat, y: nat): (z: nat)
    requires x < 0x1_0000_0000 && y < 0x1_0000_0000
    ensures z < 0x1_0000_0000 && (x + y < 0x1_0000_0000 ==> z == x + y)
  {
    if x + y < 0x1_0000_0000 then x + y else x + y - 0x1_0000_0000
  }

  function PageDown(x: nat): (y: nat)
    ensures y <= x < y + PAGE && y % PAGE == 0
  {
    x - x % PAGE
  }

  function PageUp(x: nat): (y: nat)
    requires x < 0x1_0000_0000
    ensures y % PAGE == 0 && (x + (PAGE - 1) < 0x1_0000_0000 ==> x <= y < x + PAGE)
  {
    PageDown(Add(x, PAGE - 1))
  }

  function Lowest(ph: seq<Phdr>): nat {
    if ph == [] then NOWHERE
    else
      var p, low := ph[|ph| - 1], Lowest(ph[..|ph| - 1]);
      if p.kind == PT_LOAD && p.vaddr < low then p.vaddr else low
  }

  function Highest(ph: seq<Phdr>): (h: nat)
    requires Words(ph)
    ensures h < 0x1_0000_0000
  {
    if ph == [] then 0
    else
      var p, high := ph[|ph| - 1], Highest(ph[..|ph| - 1]);
      if p.kind == PT_LOAD && Add(p.vaddr, p.memsz) > high then Add(p.vaddr, p.memsz) else high
  }

  /** The loop over the program headers. */
  method Bounds(ph: seq<Phdr>) returns (lo: nat, hi: nat)
    requires Words(ph)
    ensures lo == Lowest(ph) && hi == Highest(ph)
  {
    lo, hi := NOWHERE, 0;
    for i := 0 to |ph|
      invariant lo == Lowest(ph[..i]) && hi == Highest(ph[..i])
    {
      assert ph[..i + 1][..i] == ph[..i];
      if ph[i].kind == PT_LOAD {
        if ph[i].vaddr < lo {
          lo := ph[i].vaddr;
        }
        if Add(ph[i].vaddr, ph[i].memsz) > hi {
          hi := Add(ph[i].vaddr, ph[i].memsz);
        }
      }
    }
    assert ph[..|ph|] == ph;
  }

  /** A library whose segments end below the last page of the address space and hold what they read. */
  ghost predicate Sound(ph: seq<Phdr>) {
    Words(ph) &&
    forall i :: 0 <= i < |ph| && ph[i].kind == PT_LOAD ==>
      ph[i].vaddr + ph[i].memsz <= 0xFFFF_F000 && ph[i].filesz <= ph[i].memsz
  }

  lemma {:induction false} LowestIs(ph: seq<Phdr>)
    requires Sound(ph)
    ensures Lowest(ph) == NOWHERE <==> forall i :: 0 <= i < |ph| ==> ph[i].kind != PT_LOAD
    ensures forall i :: 0 <= i < |ph| && ph[i].kind == PT_LOAD ==> Lowest(ph) <= ph[i].vaddr
    ensures Lowest(ph) != NOWHERE ==> exists i :: 0 <= i < |ph| && ph[i].kind == PT_LOAD && ph[i].vaddr == Lowest(ph)
  {
    if ph != [] {
      var n := |ph| - 1;
      LowestIs(ph[..n]);
      assert forall i :: 0 <= i < n ==> ph[..n][i] == ph[i];
      if Lowest(ph) == ph[n].vaddr && ph[n].kind == PT_LOAD {
      } else if Lowest(ph) != NOWHERE {
        var i :| 0 <= i < n && ph[..n][i].kind == PT_LOAD && ph[..n][i].vaddr == Lowest(ph[..n]);
        assert ph[i].vaddr == Lowest(ph);
      }
    }
  }

  lemma {:induction false} HighestIs(ph: seq<Phdr>)
    requires Sound(ph)
    ensures forall i :: 0 <= i < |ph| && ph[i].kind == PT_LOAD ==> ph[i].vaddr + ph[i].memsz <= Highest(ph)
    ensures Highest(ph) <= 0xFFFF_F000
    ensures Highest(ph) > 0 ==> exists i :: 0 <= i < |ph| && ph[i].kind == PT_LOAD && ph[i].vaddr + ph[i].memsz == Highest(ph)
  {
    if ph != [] {
      var n := |ph| - 1;
      HighestIs(ph[..n]);
      assert forall i :: 0 <= i < n ==> ph[..n][i] == ph[i];
      if ph[n].kind == PT_LOAD && ph[n].vaddr + ph[n].memsz == Highest(ph) {
      } else if Highest(ph) > 0 {
        var i :| 0 <= i < n && ph[..n][i].kind == PT_LOAD && ph[..n][i].vaddr + ph[..n][i].memsz == Highest(ph[..n]);
        assert ph[i].vaddr + ph[i].memsz == Highest(ph);
      }
    }
  }

  /** The virtual address at the start of the mapping. */
  function Origin(ph: seq<Phdr>): nat { PageDown(Lowest(ph)) }

  function Span(ph: seq<Phdr>): int
    requires Words(ph)
  {
    PageUp(Highest(ph)) - Origin(ph)
  }

  /** Every segment lies inside the mapping, which is made of whole pages and begins and ends less than a
      page from a segment. */
  lemma {:induction false} SpanCovers(ph: seq<Phdr>)
    requires Sound(ph) && Lowest(ph) != NOWHERE
    ensures Span(ph) >= 0 && Span(ph) % 4096 == 0 && Origin(ph) % 4096 == 0
    ensures forall i :: 0 <= i < |ph| && ph[i].kind == 1 ==>
              Origin(ph) <= ph[i].vaddr && ph[i].vaddr + ph[i].memsz <= Origin(ph) + Span(ph)
    ensures exists i :: 0 <= i < |ph| && ph[i].kind == 1 && ph[i].vaddr < Origin(ph) + 4096
    ensures Span(ph) > 0 ==> exists i :: 0 <= i < |ph| && ph[i].kind == 1 && Origin(ph) + Span(ph) < ph[i].vaddr + ph[i].memsz + 4096
  {
    LowestIs(ph);
    HighestIs(ph);
    var i :| 0 <= i < |ph| && ph[i].kind == PT_LOAD && ph[i].vaddr == Lowest(ph);
    PagesApart(PageUp(Highest(ph)), Origin(ph));
    if Span(ph) > 0 {
      assert Highest(ph) > 0;
      var j :| 0 <= j < |ph| && ph[j].kind == PT_LOAD && ph[j].vaddr + ph[j].memsz == Highest(ph);
      assert Origin(ph) + Span(ph) < ph[j].vaddr + ph[j].memsz + PAGE;
    }
  }

  lemma {:induction false} PagesApart(x: int, y: int)
    requires x % PAGE == 0 && y % PAGE == 0
    ensures (x - y) % PAGE == 0
  {}

  // ---------- Copying the segments ----------

  predicate Copied(p: Phdr) { p.kind == PT_LOAD && p.filesz > 0 }

  function Pasted(m: Bytes, at: nat, s: Bytes): (r: Bytes)
    requires at + |s| <= |m|
    ensures |r| == |m|
  {
    m[..at] + s + m[at + |s|..]
  }

  ghost predicate InSpan(ph: seq<Phdr>, origin: nat, span: nat) {
    forall i :: 0 <= i < |ph| && Copied(ph[i]) ==> origin <= ph[i].vaddr && ph[i].vaddr + ph[i].filesz <= origin + span
  }

  /** The mapping after the first n headers, unless a segment could not be read in full. */
  function Loaded(file: Bytes, ph: seq<Phdr>, origin: nat, span: nat, n: nat): (r: Option<Bytes>)
    requires n <= |ph| && InSpan(ph, origin, span)
    ensures r.Some? ==> |r.value| == span
    decreases n
  {
    if n == 0 then Some(Zeros(span))
    else
      var p := ph[n - 1];
      match Loaded(file, ph, origin, span, n - 1)
      case None => None
      case Some(m) =>
        if !Copied(p) then Some(m)
        else if p.offset + p.filesz > |file| then None
        else Some(Pasted(m, p.vaddr - origin, file[p.offset..p.offset + p.filesz]))
  }

  /** pread of one segment into the mapping. */
  method ReadSegment(file: Bytes, p: Phdr, mem: array<Byte>, at: nat)
    requires p.offset + p.filesz <= |file| && at + p.filesz <= mem.Length
    modifies mem
    ensures mem[..] == Pasted(old(mem[..]), at, file[p.offset..p.offset + p.filesz])
  {
    ghost var was, s := mem[..], file[p.offset..p.offset + p.filesz];
    for k := 0 to p.filesz
      invariant forall i :: 0 <= i < mem.Length ==> mem[i] == if at <= i < at + k then s[i - at] else was[i]
    {
      mem[at + k] := file[p.offset + k];
    }
    assert mem[..] == Pasted(was, at, s);
  }

  /** elfload_open from the anonymous mapping to the last segment. */
  method LoadSegments(file: Bytes, ph: seq<Phdr>, origin: nat, span: nat) returns (ok: bool, mem: array<Byte>)
    requires InSpan(ph, origin, span)
    ensures fresh(mem) && mem.Length == span
    ensures match Loaded(file, ph, origin, span, |ph|)
            case None => !ok
            case Some(m) => ok && mem[..] == m
  {
    mem := new Byte[span](_ => 0);
    assert mem[..] == Zeros(span);
    for i := 0 to |ph|
      invariant Loaded(file, ph, origin, span, i) == Some(mem[..])
    {
      if Copied(ph[i]) {
        if ph[i].offset + ph[i].filesz > |file| {
          LoadedStaysNone(file, ph, origin, span, i + 1);
          return false, mem;
        }
        ReadSegment(file, ph[i], mem, ph[i].vaddr - origin);
      }
    }
    ok := true;
  }

  lemma {:induction false} LoadedStaysNone(file: Bytes, ph: seq<Phdr>, origin: nat, span: nat, n: nat)
    requires n <= |ph| && InSpan(ph, origin, span) && Loaded(file, ph, origin, span, n) == None
    ensures Loaded(file, ph, origin, span, |ph|) == None
    decreases |ph| - n
  {
    if n < |ph| {
      LoadedStaysNone(file, ph, origin, span, n + 1);
    }
  }

  /** The last of the first n headers whose file part covers an address. */
  function Covering(ph: seq<Phdr>, n: nat, v: nat): (r: Option<nat>)
    requires n <= |ph|
    ensures match r
            case Some(i) => i < n && Copied(ph[i]) && ph[i].vaddr <= v < ph[i].vaddr + ph[i].filesz
            case None => forall i :: 0 <= i < n && Copied(ph[i]) ==> !(ph[i].vaddr <= v < ph[i].vaddr + ph[i].filesz)
    decreases n
  {
    if n == 0 then None
    else if Copied(ph[n - 1]) && ph[n - 1].vaddr <= v < ph[n - 1].vaddr + ph[n - 1].filesz then Some(n - 1)
    else Covering(ph, n - 1, v)
  }

  /** Loading fails exactly when a segment reaches beyond the end of the file. */
  lemma {:induction false} LoadFailsIff(file: Bytes, ph: seq<Phdr>, origin: nat, span: nat, n: nat)
    requires n <= |ph| && InSpan(ph, origin, span)
    ensures Loaded(file, ph, origin, span, n).None? <==>
              exists i :: 0 <= i < n && ph[i].kind == 1 && ph[i].filesz > 0 && ph[i].offset + ph[i].filesz > |file|
    decreases n
  {
    if n > 0 {
      LoadFailsIff(file, ph, origin, span, n - 1);
    }
  }

  /** The last of the first n segments whose file part covers an address. */
  predicate LastCover(ph: seq<Phdr>, n: nat, v: nat, k: nat) {
    k < n <= |ph| && ph[k].kind == 1 && ph[k].vaddr <= v < ph[k].vaddr + ph[k].filesz &&
    forall j :: k < j < n ==> !(ph[j].kind == 1 && ph[j].vaddr <= v < ph[j].vaddr + ph[j].filesz)
  }

  lemma {:induction false} CoveringIs(ph: seq<Phdr>, n: nat, v: nat)
    requires n <= |ph|
    ensures match Covering(ph, n, v)
            case Some(k) => LastCover(ph, n, v, k)
            case None => forall k :: 0 <= k < n ==> !(ph[k].kind == 1 && ph[k].vaddr <= v < ph[k].vaddr + ph[k].filesz)
    decreases n
  {
    if n > 0 {
      CoveringIs(ph, n - 1, v);
    }
  }

  /** Every byte of the mapping is a byte of the file, of the last segment that covers it, or zero. */
  lemma {:induction false} EveryByte(file: Bytes, ph: seq<Phdr>, origin: nat, span: nat, n: nat, i: nat)
    requires n <= |ph| && InSpan(ph, origin, span) && Loaded(file, ph, origin, span, n).Some? && i < span
    ensures var b := Loaded(file, ph, origin, span, n).value[i];
            match Covering(ph, n, origin + i)
            case Some(k) => ph[k].offset + ph[k].filesz <= |file| && b == file[ph[k].offset + (origin + i - ph[k].vaddr)]
            case None => b == 0
    decreases n
  {
    if n > 0 {
      EveryByte(file, ph, origin, span, n - 1, i);
    }
  }

  /** The same in terms of the program headers. */
  lemma {:induction false} EveryByteIs(file: Bytes, ph: seq<Phdr>, origin: nat, span: nat, n: nat, i: nat, k: nat)
    requires n <= |ph| && InSpan(ph, origin, span) && Loaded(file, ph, origin, span, n).Some? && i < span
    ensures LastCover(ph, n, origin + i, k) ==>
              ph[k].offset + ph[k].filesz <= |file| &&
              Loaded(file, ph, origin, span, n).value[i] == file[ph[k].offset + (origin + i - ph[k].vaddr)]
    ensures (forall j :: 0 <= j < n ==> !(ph[j].kind == 1 && ph[j].vaddr <= origin + i < ph[j].vaddr + ph[j].filesz)) ==>
              Loaded(file, ph, origin, span, n).value[i] == 0
  {
    EveryByte(file, ph, origin, span, n, i);
    CoveringIs(ph, n, origin + i);
  }
}
