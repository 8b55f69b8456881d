/** elfload_open from the program headers to the last relocation (elfload.c). */
module ElfLoader {
  import opened Options
  import opened Bytes
  import opened ElfLayout
  import opened ElfRelocs

  const DT_NULL := 0
  const DT_PLTRELSZ := 2
  const DT_HASH := 4
  const DT_STRTAB := 5
  const DT_SYMTAB := 6
  const DT_REL := 17
  const DT_RELSZ := 18
  const DT_JMPREL := 23

  datatype Dynamic = Dynamic(symtab: Option<nat>, strtab: Option<nat>, hash: Option<nat>,
                             rel: Option<nat>, relsz: nat, jmprel: Option<nat>, pltrelsz: nat)

  /** The value of the last of the first n entries with a tag. */
  function LastTag(m: Bytes, at: nat, n: nat, tag: nat): Option<nat> {
    if n == 0 then None
    else if U32(m, at + 8 * (n - 1)) == tag then Some(U32(m, at + 8 * (n - 1) + 4))
    else LastTag(m, at, n - 1, tag)
  }

  function OrZero(x: Option<nat>): nat {
    match x
    case None => 0
    case Some(v) => v
  }

  function DynamicOf(m: Bytes, at: nat, n: nat): Dynamic {
    Dynamic(LastTag(m, at, n, DT_SYMTAB), LastTag(m, at, n, DT_STRTAB), LastTag(m, at, n, DT_HASH), LastTag(m, at, n, DT_REL),
            OrZero(LastTag(m, at, n, DT_RELSZ)), LastTag(m, at, n, DT_JMPREL), OrZero(LastTag(m, at, n, DT_PLTRELSZ)))
  }

  /** An entry of the dynamic section is two words, a tag and its value. */
  function TagAt(m: Bytes, at: nat, i: nat): nat { U32(m, at + 8 * i) }

  function ValueAt(m: Bytes, at: nat, i: nat): nat { U32(m, at + 8 * i + 4) }

  /** Of the first n entries, the last one with a tag has this value. */
  predicate LastEntry(m: Bytes, at: nat, n: nat, tag: nat, v: nat) {
    exists i: nat :: i < n && TagAt(m, at, i) == tag && ValueAt(m, at, i) == v && NoneAfter(m, at, n, tag, i + 1)
  }

  predicate NoneAfter(m: Bytes, at: nat, n: nat, tag: nat, i: nat) {
    forall j: nat :: i <= j < n ==> TagAt(m, at, j) != tag
  }

  lemma {:induction false} LastTagIs(m: Bytes, at: nat, n: nat, tag: nat)
    ensures match LastTag(m, at, n, tag)
            case Some(v) => exists i: nat :: i < n && TagAt(m, at, i) == tag && ValueAt(m, at, i) == v && NoneAfter(m, at, n, tag, i + 1)
            case None => NoneAfter(m, at, n, tag, 0)
    decreases n
  {
    if n > 0 && TagAt(m, at, n - 1) == tag {
      assert NoneAfter(m, at, n, tag, n - 1 + 1);
    } else if n > 0 {
      LastTagIs(m, at, n - 1, tag);
      if LastTag(m, at, n, tag).Some? {
        var i: nat :| i < n - 1 && TagAt(m, at, i) == tag && ValueAt(m, at, i) == LastTag(m, at, n, tag).value &&
                      NoneAfter(m, at, n - 1, tag, i + 1);
        assert NoneAfter(m, at, n, tag, i + 1);
      }
    }
  }

  lemma {:induction false} LastEntryIs(m: Bytes, at: nat, n: nat, tag: nat, v: nat)
    ensures LastTag(m, at, n, tag) == Some(v) <==> LastEntry(m, at, n, tag, v)
  {
    LastTagIs(m, at, n, tag);
    if LastEntry(m, at, n, tag, v) {
      var i: nat :| i < n && TagAt(m, at, i) == tag && ValueAt(m, at, i) == v && NoneAfter(m, at, n, tag, i + 1);
      assert LastTag(m, at, n, tag).Some?;
      var j: nat :| j < n && TagAt(m, at, j) == tag && ValueAt(m, at, j) == LastTag(m, at, n, tag).value && NoneAfter(m, at, n, tag, j + 1);
      assert i == j;
    }
  }

  /** Which entries say where the tables are and how long the relocations are, by their numbers in the
      System V ABI. */
  lemma {:induction false} DynamicMeans(m: Bytes, at: nat, n: nat, v: nat)
    ensures var d := DynamicOf(m, at, n);
            (d.strtab == Some(v) <==> LastEntry(m, at, n, 5, v)) && (d.symtab == Some(v) <==> LastEntry(m, at, n, 6, v)) &&
            (d.hash == Some(v) <==> LastEntry(m, at, n, 4, v)) && (d.rel == Some(v) <==> LastEntry(m, at, n, 17, v)) &&
            (d.jmprel == Some(v) <==> LastEntry(m, at, n, 23, v)) &&
            (LastEntry(m, at, n, 18, v) ==> d.relsz == v) && (LastEntry(m, at, n, 2, v) ==> d.pltrelsz == v)
  {
    LastEntryIs(m, at, n, 5, v);
    LastEntryIs(m, at, n, 6, v);
    LastEntryIs(m, at, n, 4, v);
    LastEntryIs(m, at, n, 17, v);
    LastEntryIs(m, at, n, 23, v);
    LastEntryIs(m, at, n, 18, v);
    LastEntryIs(m, at, n, 2, v);
  }

  /** n entries, and then the end of the dynamic section. */
  ghost predicate Dynamics(m: Bytes, at: nat, n: nat) {
    at + 8 * n + 8 <= |m| && U32(m, at + 8 * n) == DT_NULL && forall i :: 0 <= i < n ==> U32(m, at + 8 * i) != DT_NULL
  }

  /** The loop over the dynamic section. */
  method ReadDynamic(mem: array<Byte>, at: nat, ghost n: nat) returns (d: Dynamic)
    requires Dynamics(mem[..], at, n)
    ensures d == DynamicOf(mem[..], at, n)
  {
    d := Dynamic(None, None, None, None, 0, None, 0);
    var dyn := at;
    ghost var i := 0;
    while U32(mem[..], dyn) != DT_NULL
      invariant i <= n && dyn == at + 8 * i && d == DynamicOf(mem[..], at, i)
      decreases n - i
    {
      var tag, val := U32(mem[..], dyn), U32(mem[..], dyn + 4);
      if tag == DT_SYMTAB {
        d := d.(symtab := Some(val));
      } else if tag == DT_STRTAB {
        d := d.(strtab := Some(val));
      } else if tag == DT_HASH {
        d := d.(hash := Some(val));
      } else if tag == DT_REL {
        d := d.(rel := Some(val));
      } else if tag == DT_RELSZ {
        d := d.(relsz := val);
      } else if tag == DT_JMPREL {
        d := d.(jmprel := Some(val));
      } else if tag == DT_PLTRELSZ {
        d := d.(pltrelsz := val);
      }
      dyn := dyn + 8;
      i := i + 1;
    }
  }

  /** The last PT_DYNAMIC header. */
  function DynamicHeader(ph: seq<Phdr>): Option<nat> {
    if ph == [] then None
    else if ph[|ph| - 1].kind == PT_DYNAMIC then Some(ph[|ph| - 1].vaddr)
    else DynamicHeader(ph[..|ph| - 1])
  }

  /** The dynamic section is where the last header of its kind says. */
  lemma {:induction false} DynamicHeaderIs(ph: seq<Phdr>, v: nat)
    ensures DynamicHeader(ph) == Some(v) <==>
              exists i :: 0 <= i < |ph| && ph[i].kind == 2 && ph[i].vaddr == v && forall j :: i < j < |ph| ==> ph[j].kind != 2
  {
    if ph != [] {
      var n := |ph| - 1;
      DynamicHeaderIs(ph[..n], v);
      if ph[n].kind != 2 {
        assert forall i :: 0 <= i < n ==> ph[..n][i] == ph[i];
      }
    }
  }

  predicate HasTables(d: Dynamic) { d.symtab.Some? && d.strtab.Some? && d.hash.Some? }

  /** An address of the library as a position in the mapping. */
  function At(v: nat, origin: nat): nat { if v >= origin then v - origin else 0 }

  function EntriesOf(table: Option<nat>, size: nat): nat { if table.Some? then size / 8 else 0 }

  /** The tables as positions; the number of symbols is nchain, the second word of the hash table. */
  function ElfOf(m: Bytes, d: Dynamic, origin: nat, strEnd: nat): Elf
    requires HasTables(d)
  {
    Elf(origin, At(d.symtab.value, origin), U32(m, At(d.hash.value, origin) + 4), At(d.strtab.value, origin), strEnd,
        At(OrZero(d.rel), origin), EntriesOf(d.rel, d.relsz), At(OrZero(d.jmprel), origin), EntriesOf(d.jmprel, d.pltrelsz))
  }

  /** lo.base: the mapping less the address it begins with, as a 32-bit word. */
  function LoBase(base: nat, origin: nat): nat {
    if base >= origin then base - origin else base + UINT32 - origin % UINT32
  }

  lemma {:induction false} LoBaseIs(base: nat, origin: nat)
    requires base < 0x1_0000_0000 && origin < 0x1_0000_0000
    ensures (LoBase(base, origin) + origin) % 0x1_0000_0000 == base && LoBase(base, origin) < 0x1_0000_0000 + base
  {}

  predicate NotBelow(v: Option<nat>, origin: nat) { v.Some? ==> v.value >= origin }

  /** No table begins before the mapping does. */
  predicate TablesInside(d: Dynamic, origin: nat) {
    NotBelow(d.symtab, origin) && NotBelow(d.strtab, origin) && NotBelow(d.hash, origin) &&
    NotBelow(d.rel, origin) && NotBelow(d.jmprel, origin)
  }

  /** What a well-formed library promises about its image: its dynamic section, of n entries, ends inside
      it, and its tables, if it has them all, lie inside it and are well formed. */
  ghost predicate GoodImage(m: Bytes, ph: seq<Phdr>, n: nat, strEnd: nat) {
    var origin := Origin(ph);
    match DynamicHeader(ph)
    case None => true
    case Some(v) =>
      v >= origin && Dynamics(m, v - origin, n) &&
      var d := DynamicOf(m, v - origin, n);
      HasTables(d) ==> TablesInside(d, origin) && WellFormed(m, ElfOf(m, d, origin, strEnd))
  }

  /** The tables, once more as addresses; a table of entries is as long as its size says. */
  lemma {:induction false} TablesMean(m: Bytes, d: Dynamic, origin: nat, strEnd: nat)
    requires HasTables(d) && TablesInside(d, origin)
    ensures var e := ElfOf(m, d, origin, strEnd);
            e.origin == origin && origin + e.symtab == d.symtab.value && origin + e.strtab == d.strtab.value &&
            e.nsyms == U32(m, d.hash.value - origin + 4) &&
            (d.rel.Some? ==> origin + e.rel == d.rel.value && 8 * e.nrel <= d.relsz < 8 * e.nrel + 8) && (d.rel.None? ==> e.nrel == 0) &&
            (d.jmprel.Some? ==> origin + e.jmprel == d.jmprel.value && 8 * e.njmprel <= d.pltrelsz < 8 * e.njmprel + 8) &&
            (d.jmprel.None? ==> e.njmprel == 0)
  {}

  /** Every relocation of the image can be carried out; and has been. */
  ghost predicate Linkable(m: Bytes, ph: seq<Phdr>, n: nat, strEnd: nat, w: World)
    requires GoodImage(m, ph, n, strEnd)
  {
    DynamicHeader(ph).Some? &&
    var d := DynamicOf(m, DynamicHeader(ph).value - Origin(ph), n);
    HasTables(d) && var e := ElfOf(m, d, Origin(ph), strEnd); forall k :: 0 <= k < Count(e) ==> Feasible(m, e, w, k)
  }

  ghost predicate Linked(m: Bytes, now: Bytes, ph: seq<Phdr>, n: nat, strEnd: nat, w: World)
    requires GoodImage(m, ph, n, strEnd) && Linkable(m, ph, n, strEnd, w)
  {
    var e := ElfOf(m, DynamicOf(m, DynamicHeader(ph).value - Origin(ph), n), Origin(ph), strEnd);
    forall k :: 0 <= k < Count(e) ==> CarriedOut(m, now, e, w, k)
  }

  /** When the image can be relocated. */
  ghost predicate Relocatable(m: Bytes, ph: seq<Phdr>, n: nat, strEnd: nat, w: World)
    requires GoodImage(m, ph, n, strEnd)
  {
    DynamicHeader(ph).Some? &&
    var d := DynamicOf(m, DynamicHeader(ph).value - Origin(ph), n);
    HasTables(d) && var e := ElfOf(m, d, Origin(ph), strEnd); AllPrescribed(m, e, w, Count(e))
  }

  /** The image is the loaded one with every slot patched. */
  ghost predicate Relocated(m: Bytes, now: Bytes, ph: seq<Phdr>, n: nat, strEnd: nat, w: World)
    requires GoodImage(m, ph, n, strEnd) && Relocatable(m, ph, n, strEnd, w)
  {
    var e := ElfOf(m, DynamicOf(m, DynamicHeader(ph).value - Origin(ph), n), Origin(ph), strEnd);
    Patched(m, now, e, w, Count(e))
  }

  /** The loop that looks for PT_DYNAMIC. */
  method FindDynamic(ph: seq<Phdr>) returns (v: Option<nat>)
    ensures v == DynamicHeader(ph)
  {
    v := None;
    for i := 0 to |ph|
      invariant v == DynamicHeader(ph[..i])
    {
      assert ph[..i + 1][..i] == ph[..i];
      if ph[i].kind == PT_DYNAMIC {
        v := Some(ph[i].vaddr);
      }
    }
    assert ph[..|ph|] == ph;
  }

  lemma {:induction false} SpanHolds(ph: seq<Phdr>)
    requires Sound(ph) && Lowest(ph) != NOWHERE
    ensures Span(ph) >= 0 && InSpan(ph, Origin(ph), Span(ph))
  {
    SpanCovers(ph);
  }

  /** The part of elfload_open that works on the mapped image. */
  method OpenImage(mem: array<Byte>, ph: seq<Phdr>, w: World, strEnd: nat, ghost n: nat) returns (ok: bool)
    requires GoodImage(mem[..], ph, n, strEnd)
    modifies mem
    ensures ok <==> Relocatable(old(mem[..]), ph, n, strEnd, w)
    ensures ok ==> Relocated(old(mem[..]), mem[..], ph, n, strEnd, w)
    ensures ok <==> Linkable(old(mem[..]), ph, n, strEnd, w)
    ensures ok ==> Linked(old(mem[..]), mem[..], ph, n, strEnd, w)
  {
    var v := FindDynamic(ph);
    match v
    case None => ok := false;
    case Some(at) =>
      var d := ReadDynamic(mem, at - Origin(ph), n);
      if d.symtab.None? || d.strtab.None? || d.hash.None? {
        return false;
      }
      ok := Relocate(mem, ElfOf(mem[..], d, Origin(ph), strEnd), w);
  }

  /** elfload_open, for a file and its program headers, with the address mmap chose. It succeeds exactly
      when there is something to load, every segment can be read, and the image can be relocated; then
      the mapping is the loaded image with every slot patched. */
  method Open(file: Bytes, ph: seq<Phdr>, base: nat, dlsym: string -> nat, stubs: (nat, nat, nat), strEnd: nat, ghost n: nat)
    returns (ok: bool, mem: array<Byte>)
    requires Sound(ph)
    requires Lowest(ph) != NOWHERE && Span(ph) >= 0 && InSpan(ph, Origin(ph), Span(ph)) ==>
               match Loaded(file, ph, Origin(ph), Span(ph), |ph|)
               case None => true
               case Some(m) => GoodImage(m, ph, n, strEnd)
    ensures fresh(mem)
    ensures Lowest(ph) != NOWHERE ==> Span(ph) >= 0 && InSpan(ph, Origin(ph), Span(ph))
    ensures if Lowest(ph) == NOWHERE then !ok
            else
              match Loaded(file, ph, Origin(ph), Span(ph), |ph|)
              case None => !ok
              case Some(m) =>
                var w := World(LoBase(base, Origin(ph)), dlsym, stubs.0, stubs.1, stubs.2);
                (ok <==> Relocatable(m, ph, n, strEnd, w)) && (ok ==> Relocated(m, mem[..], ph, n, strEnd, w)) &&
                (ok <==> Linkable(m, ph, n, strEnd, w)) && (ok ==> Linked(m, mem[..], ph, n, strEnd, w))
  {
    var lo, hi := Bounds(ph);
    if lo == NOWHERE {
      mem := new Byte[0];
      return false, mem;
    }
    SpanHolds(ph);
    var origin := PageDown(lo);
    var span := PageUp(hi) - PageDown(lo);
    ok, mem := LoadSegments(file, ph, origin, span);
    if ok {
      ok := OpenImage(mem, ph, World(LoBase(base, origin), dlsym, stubs.0, stubs.1, stubs.2), strEnd, n);
    }
  }

  /** After loading and relocating, a byte that is in no slot is a byte of the file, of the last segment
      that covers it, or zero. */
  lemma {:induction false} OtherBytes(file: Bytes, ph: seq<Phdr>, was: Bytes, now: Bytes, e: Elf, w: World, i: nat)
    requires Sound(ph) && Lowest(ph) != NOWHERE && Span(ph) >= 0 && InSpan(ph, Origin(ph), Span(ph))
    requires Loaded(file, ph, Origin(ph), Span(ph), |ph|) == Some(was) && Patched(was, now, e, w, Count(e)) && i < |was|
    requires forall k :: 0 <= k < Count(e) ==> Apart(i, 1, RelocOf(was, e, k).slot, 4)
    ensures match Covering(ph, |ph|, Origin(ph) + i)
            case Some(k) => ph[k].offset + ph[k].filesz <= |file| && now[i] == file[ph[k].offset + (Origin(ph) + i - ph[k].vaddr)]
            case None => now[i] == 0
  {
    EveryByte(file, ph, Origin(ph), Span(ph), |ph|, i);
  }
}
