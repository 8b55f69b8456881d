/** The second half of elfload_open (elfload.c): symbols and the two relocation passes, on the bytes of
    the mapped image. Positions are counted from the start of the mapping. */
module ElfRelocs {
  import opened Options
  import opened Bytes

  const UINT32 := 0x1_0000_0000

  const R_ARM_ABS32 := 2
  const R_ARM_GLOB_DAT := 21
  const R_ARM_JUMP_SLOT := 22
  const R_ARM_RELATIVE := 23

  /** What the dynamic section said; the string table ends at strEnd, which the loader never looks at. */
  datatype Elf = Elf(origin: nat, symtab: nat, nsyms: nat, strtab: nat, strEnd: nat, rel: nat, nrel: nat, jmprel: nat, njmprel: nat)

  /** Where the image went, and what the process can resolve; 0 is a null pointer. */
  datatype World = World(loBase: nat, dlsym: string -> nat, typeMatch: nat, beginCleanup: nat, callUnexpected: nat)

  function U32(m: Bytes, i: int): nat {
    if 0 <= i && i + 4 <= |m| then Word(m[i..i + 4]) else 0
  }

  /** Adding to a 32-bit word. */
  function Plus(x: nat, y: nat): nat { (x + y) % UINT32 }

  // ---------- Symbols ----------

  /** A C string. */
  function CString(m: Bytes, i: nat): string
    decreases |m| - i
  {
    if i >= |m| || m[i] == 0 then "" else [m[i] as char] + CString(m, i + 1)
  }

  function SymName(m: Bytes, e: Elf, s: nat): string {
    CString(m, e.strtab + U32(m, e.symtab + 16 * s))
  }

  function SymValue(m: Bytes, e: Elf, s: nat): nat { U32(m, e.symtab + 16 * s + 4) }

  /** st_shndx != SHN_UNDEF, in the last two of the sixteen bytes. */
  predicate SymDefined(m: Bytes, e: Elf, s: nat) {
    U32(m, e.symtab + 16 * s + 12) / 0x1_0000 != 0
  }

  predicate Defines(m: Bytes, e: Elf, s: nat, name: string) {
    SymDefined(m, e, s) && SymValue(m, e, s) != 0 && SymName(m, e, s) == name
  }

  /** The first symbol from s on that defines a name. */
  function FirstDefined(m: Bytes, e: Elf, name: string, s: nat): Option<nat>
    requires s <= e.nsyms
    decreases e.nsyms - s
  {
    if s == e.nsyms then None else if Defines(m, e, s, name) then Some(s) else FirstDefined(m, e, name, s + 1)
  }

  lemma {:induction false} FirstDefinedIs(m: Bytes, e: Elf, name: string, s: nat)
    requires s <= e.nsyms
    ensures match FirstDefined(m, e, name, s)
            case Some(k) => s <= k < e.nsyms && Defines(m, e, k, name) && forall j :: s <= j < k ==> !Defines(m, e, j, name)
            case None => forall j :: s <= j < e.nsyms ==> !Defines(m, e, j, name)
    decreases e.nsyms - s
  {
    if s < e.nsyms && !Defines(m, e, s, name) {
      FirstDefinedIs(m, e, name, s + 1);
    }
  }

  /** legacy_abi. */
  function LegacyAbi(w: World, name: string): nat {
    if name == "__cxa_type_match" then w.typeMatch
    else if name == "__cxa_begin_cleanup" then w.beginCleanup
    else if name == "__cxa_call_unexpected" then w.callUnexpected
    else 0
  }

  /** resolve: the library's own symbols, then the process, then the stubs. */
  function Resolve(m: Bytes, e: Elf, w: World, name: string): nat {
    match FirstDefined(m, e, name, 0)
    case Some(s) => Plus(w.loBase, SymValue(m, e, s))
    case None => if w.dlsym(name) != 0 then w.dlsym(name) else LegacyAbi(w, name)
  }

  /** Which address a name gets: the first symbol of the library that defines it, only then the process,
      and only then a stub. */
  lemma {:induction false} ResolveOrder(m: Bytes, e: Elf, w: World, name: string)
    ensures (exists s :: 0 <= s < e.nsyms && Defines(m, e, s, name)) ==>
              exists s :: 0 <= s < e.nsyms && Defines(m, e, s, name) && (forall j :: 0 <= j < s ==> !Defines(m, e, j, name)) &&
                Resolve(m, e, w, name) == Plus(w.loBase, SymValue(m, e, s))
    ensures (forall s :: 0 <= s < e.nsyms ==> !Defines(m, e, s, name)) ==>
              Resolve(m, e, w, name) == if w.dlsym(name) != 0 then w.dlsym(name) else LegacyAbi(w, name)
  {
    FirstDefinedIs(m, e, name, 0);
    match FirstDefined(m, e, name, 0)
    case Some(s) => assert Defines(m, e, s, name);
    case None =>
  }

  /** There are three stubs, each under its own name. */
  lemma {:induction false} Stubs(w: World, name: string)
    ensures LegacyAbi(w, "__cxa_type_match") == w.typeMatch
    ensures LegacyAbi(w, "__cxa_begin_cleanup") == w.beginCleanup
    ensures LegacyAbi(w, "__cxa_call_unexpected") == w.callUnexpected
    ensures name != "__cxa_type_match" && name != "__cxa_begin_cleanup" && name != "__cxa_call_unexpected" ==> LegacyAbi(w, name) == 0
  {
    assert "__cxa_begin_cleanup"[6] != "__cxa_type_match"[6] && "__cxa_call_unexpected"[6] != "__cxa_type_match"[6];
    assert "__cxa_call_unexpected"[6] != "__cxa_begin_cleanup"[6];
  }

  // ---------- Relocations ----------

  datatype Reloc = Reloc(slot: int, kind: nat, sym: nat)

  function RelocAt(m: Bytes, e: Elf, at: nat): Reloc {
    var info := U32(m, at + 4);
    Reloc(U32(m, at) - e.origin, info % 0x100, info / 0x100)
  }

  function Count(e: Elf): nat { e.nrel + e.njmprel }

  /** The entries of DT_REL and then those of DT_JMPREL. */
  function Entry(e: Elf, k: nat): nat {
    if k < e.nrel then e.rel + 8 * k else e.jmprel + 8 * (k - e.nrel)
  }

  function RelocOf(m: Bytes, e: Elf, k: nat): Reloc { RelocAt(m, e, Entry(e, k)) }

  /** What an entry prescribes for its slot; nothing when its type is unknown or its symbol is not found. */
  function Prescribed(m: Bytes, e: Elf, w: World, r: Reloc): Option<nat> {
    if r.kind == R_ARM_RELATIVE then Some(Plus(U32(m, r.slot), w.loBase))
    else if r.kind == R_ARM_GLOB_DAT || r.kind == R_ARM_JUMP_SLOT || r.kind == R_ARM_ABS32 then
      var v := Resolve(m, e, w, SymName(m, e, r.sym));
      if v == 0 then None
      else if r.kind == R_ARM_ABS32 then Some(Plus(U32(m, r.slot), v))
      else Some(v % UINT32)
    else None
  }

  // ---------- The relocations of the ARM ELF supplement ----------

  /** The address the symbol of an entry stands for. */
  function Target(m: Bytes, e: Elf, w: World, k: nat): nat {
    Resolve(m, e, w, SymName(m, e, RelocOf(m, e, k).sym))
  }

  /** Entry k can be carried out: its type is one of four, and but for R_ARM_RELATIVE its symbol is found. */
  predicate Feasible(m: Bytes, e: Elf, w: World, k: nat) {
    var r := RelocOf(m, e, k);
    r.kind == 23 || (r.kind in {2, 21, 22} && Target(m, e, w, k) != 0)
  }

  /** Entry k has been carried out: base or symbol added to the word in the slot, or the symbol put there. */
  predicate CarriedOut(was: Bytes, now: Bytes, e: Elf, w: World, k: nat) {
    var r := RelocOf(was, e, k);
    (r.kind == 23 ==> U32(now, r.slot) == (U32(was, r.slot) + w.loBase) % 0x1_0000_0000) &&
    (r.kind == 2 ==> U32(now, r.slot) == (U32(was, r.slot) + Target(was, e, w, k)) % 0x1_0000_0000) &&
    (r.kind == 21 || r.kind == 22 ==> U32(now, r.slot) == Target(was, e, w, k) % 0x1_0000_0000)
  }

  lemma {:induction false} PrescribedMeans(was: Bytes, now: Bytes, e: Elf, w: World, k: nat)
    ensures Prescribed(was, e, w, RelocOf(was, e, k)).Some? <==> Feasible(was, e, w, k)
    ensures Prescribed(was, e, w, RelocOf(was, e, k)) == Some(U32(now, RelocOf(was, e, k).slot)) ==> CarriedOut(was, now, e, w, k)
  {}

  /** A relocation entry is two words: the address of the slot, and the symbol number above the type byte. */
  lemma {:induction false} EntryReads(m: Bytes, e: Elf, at: nat, address: nat, sym: nat, kind: nat)
    requires address < 0x1_0000_0000 && sym < 0x100_0000 && kind < 0x100 && at + 8 <= |m|
    requires m[at..at + 4] == Le32(address) && m[at + 4..at + 8] == Le32(0x100 * sym + kind)
    ensures RelocAt(m, e, at) == Reloc(address - e.origin, kind, sym)
  {
    WordOfLe32(address);
    WordOfLe32(0x100 * sym + kind);
    LowByte(0x100 * sym + kind, kind, sym);
  }

  /** A symbol is four words: the offset of its name, its value, its size, and its section above two bytes.
      It defines a name when it has a section, a value and that name. */
  lemma {:induction false} SymbolReads(m: Bytes, e: Elf, s: nat, at: nat, name: nat, value: nat, info: nat, section: nat)
    requires name < 0x1_0000_0000 && value < 0x1_0000_0000 && info < 0x1_0000 && section < 0x1_0000
    requires at == e.symtab + 16 * s && at + 16 <= |m| && m[at..at + 4] == Le32(name) && m[at + 4..at + 8] == Le32(value)
    requires m[at + 12..at + 16] == Le32(info + 0x1_0000 * section)
    ensures SymName(m, e, s) == CString(m, e.strtab + name) && SymValue(m, e, s) == value
    ensures SymDefined(m, e, s) <==> section != 0
    ensures forall id :: Defines(m, e, s, id) <==> section != 0 && value != 0 && CString(m, e.strtab + name) == id
  {
    WordOfLe32(name);
    WordOfLe32(value);
    WordOfLe32(info + 0x1_0000 * section);
    assert (info + 0x1_0000 * section) / 0x1_0000 == section;
  }

  /** A name is the bytes up to the first zero. */
  lemma {:induction false} NameReads(m: Bytes, i: nat, n: nat)
    requires i + n < |m| && m[i + n] == 0 && forall k :: i <= k < i + n ==> m[k] != 0
    ensures |CString(m, i)| == n && forall k :: 0 <= k < n ==> CString(m, i)[k] == m[i + k] as char
    decreases n
  {
    if n > 0 {
      NameReads(m, i + 1, n - 1);
    }
  }

  // ---------- Well-formed images ----------

  predicate Ends(m: Bytes, i: nat, end: nat)
    decreases end - i
  {
    i < end <= |m| && (m[i] == 0 || Ends(m, i + 1, end))
  }

  predicate Apart(a: int, n: int, b: int, k: int) { a + n <= b || b + k <= a }

  predicate ClearOf(slot: int, e: Elf) {
    Apart(slot, 4, e.symtab, 16 * e.nsyms) && Apart(slot, 4, e.strtab, e.strEnd - e.strtab) &&
    Apart(slot, 4, e.rel, 8 * e.nrel) && Apart(slot, 4, e.jmprel, 8 * e.njmprel)
  }

  ghost predicate Tables(m: Bytes, e: Elf) {
    e.symtab + 16 * e.nsyms <= |m| && e.strtab <= e.strEnd <= |m| && e.rel + 8 * e.nrel <= |m| && e.jmprel + 8 * e.njmprel <= |m|
  }

  ghost predicate Names(m: Bytes, e: Elf) {
    forall s :: 0 <= s < e.nsyms ==> Ends(m, e.strtab + U32(m, e.symtab + 16 * s), e.strEnd)
  }

  ghost predicate Slots(m: Bytes, e: Elf) {
    (forall k :: 0 <= k < Count(e) ==>
       var r := RelocOf(m, e, k); 0 <= r.slot && r.slot + 4 <= |m| && r.sym < e.nsyms && ClearOf(r.slot, e)) &&
    (forall j, k :: 0 <= j < k < Count(e) ==> Apart(RelocOf(m, e, j).slot, 4, RelocOf(m, e, k).slot, 4))
  }

  /** Tables and slots inside the image, names that end in the string table, and slots that overlap
      neither each other nor a table. */
  ghost predicate WellFormed(m: Bytes, e: Elf) {
    Tables(m, e) && Names(m, e) && Slots(m, e)
  }

  // ---------- The image after some relocations ----------

  function SetWord(m: Bytes, i: nat, v: nat): (r: Bytes)
    requires i + 4 <= |m| && v < UINT32
    ensures |r| == |m|
  {
    m[..i] + Le32(v) + m[i + 4..]
  }

  ghost predicate AllPrescribed(m: Bytes, e: Elf, w: World, n: nat) {
    forall k :: 0 <= k < n ==> Prescribed(m, e, w, RelocOf(m, e, k)).Some?
  }

  lemma {:induction false} PrescribedIsWord(m: Bytes, e: Elf, w: World, r: Reloc)
    ensures Prescribed(m, e, w, r).Some? ==> Prescribed(m, e, w, r).value < UINT32
  {}

  /** The first n slots hold what their entries prescribe, read off the image before any relocation. */
  ghost predicate Patched(was: Bytes, now: Bytes, e: Elf, w: World, n: nat) {
    |now| == |was| &&
    (forall k :: 0 <= k < n ==> Prescribed(was, e, w, RelocOf(was, e, k)) == Some(U32(now, RelocOf(was, e, k).slot))) &&
    (forall i :: 0 <= i < |was| && (forall k :: 0 <= k < n ==> Apart(i, 1, RelocOf(was, e, k).slot, 4)) ==> now[i] == was[i])
  }

  // ---------- The tables stay readable ----------

  predicate Agree(a: Bytes, b: Bytes, lo: int, hi: int) {
    |a| == |b| && forall i :: lo <= i < hi && 0 <= i < |a| ==> a[i] == b[i]
  }

  lemma {:induction false} U32Agree(a: Bytes, b: Bytes, i: int)
    requires Agree(a, b, i, i + 4)
    ensures U32(a, i) == U32(b, i)
  {
    if 0 <= i && i + 4 <= |a| {
      assert a[i..i + 4] == b[i..i + 4];
    }
  }

  lemma {:induction false} CStringAgree(a: Bytes, b: Bytes, i: nat, end: nat)
    requires Agree(a, b, i, end) && Ends(a, i, end)
    ensures CString(a, i) == CString(b, i) && Ends(b, i, end)
    decreases end - i
  {
    if a[i] != 0 {
      CStringAgree(a, b, i + 1, end);
    }
  }

  /** Both tables the symbols are in. */
  predicate SameSymbols(a: Bytes, b: Bytes, e: Elf) {
    Agree(a, b, e.symtab, e.symtab + 16 * e.nsyms) && Agree(a, b, e.strtab, e.strEnd)
  }

  lemma {:induction false} SymbolAgrees(a: Bytes, b: Bytes, e: Elf, s: nat)
    requires SameSymbols(a, b, e) && Names(a, e) && s < e.nsyms
    ensures SymName(a, e, s) == SymName(b, e, s) && SymValue(a, e, s) == SymValue(b, e, s)
    ensures SymDefined(a, e, s) == SymDefined(b, e, s)
  {
    U32Agree(a, b, e.symtab + 16 * s);
    U32Agree(a, b, e.symtab + 16 * s + 4);
    U32Agree(a, b, e.symtab + 16 * s + 12);
    CStringAgree(a, b, e.strtab + U32(a, e.symtab + 16 * s), e.strEnd);
  }

  lemma {:induction false} DefinesAgree(a: Bytes, b: Bytes, e: Elf, name: string, s: nat)
    requires SameSymbols(a, b, e) && Names(a, e) && s < e.nsyms
    ensures Defines(a, e, s, name) == Defines(b, e, s, name)
  {
    SymbolAgrees(a, b, e, s);
  }

  lemma {:induction false} FirstAgrees(a: Bytes, b: Bytes, e: Elf, name: string, s: nat)
    requires SameSymbols(a, b, e) && Names(a, e) && s <= e.nsyms
    ensures FirstDefined(a, e, name, s) == FirstDefined(b, e, name, s)
    decreases e.nsyms - s
  {
    if s < e.nsyms {
      DefinesAgree(a, b, e, name, s);
      FirstAgrees(a, b, e, name, s + 1);
    }
  }

  lemma {:induction false} ResolveAgrees(a: Bytes, b: Bytes, e: Elf, w: World, name: string)
    requires SameSymbols(a, b, e) && Names(a, e)
    ensures Resolve(a, e, w, name) == Resolve(b, e, w, name)
  {
    FirstAgrees(a, b, e, name, 0);
    FirstDefinedIs(a, e, name, 0);
    match FirstDefined(a, e, name, 0)
    case Some(s) => SymbolAgrees(a, b, e, s);
    case None =>
  }

  /** Nothing in the tables moves while slots are patched. */
  lemma {:induction false} ClearStays(was: Bytes, now: Bytes, e: Elf, w: World, n: nat, lo: int, hi: int)
    requires Patched(was, now, e, w, n) && n <= Count(e)
    requires forall k :: 0 <= k < n ==> Apart(RelocOf(was, e, k).slot, 4, lo, hi - lo)
    requires lo <= hi
    ensures Agree(was, now, lo, hi)
  {}

  lemma {:induction false} TablesStay(was: Bytes, now: Bytes, e: Elf, w: World, n: nat)
    requires WellFormed(was, e) && Patched(was, now, e, w, n) && n <= Count(e)
    ensures SameSymbols(was, now, e)
    ensures Agree(was, now, e.rel, e.rel + 8 * e.nrel) && Agree(was, now, e.jmprel, e.jmprel + 8 * e.njmprel)
  {
    forall k | 0 <= k < n ensures ClearOf(RelocOf(was, e, k).slot, e) {}
    ClearStays(was, now, e, w, n, e.symtab, e.symtab + 16 * e.nsyms);
    ClearStays(was, now, e, w, n, e.strtab, e.strEnd);
    ClearStays(was, now, e, w, n, e.rel, e.rel + 8 * e.nrel);
    ClearStays(was, now, e, w, n, e.jmprel, e.jmprel + 8 * e.njmprel);
  }

  /** The next entry, its symbol and its slot still read as they did at the start. */
  lemma {:induction false} NextReads(was: Bytes, now: Bytes, e: Elf, w: World, n: nat)
    requires WellFormed(was, e) && Patched(was, now, e, w, n) && n < Count(e)
    ensures RelocOf(now, e, n) == RelocOf(was, e, n)
    ensures U32(now, RelocOf(was, e, n).slot) == U32(was, RelocOf(was, e, n).slot)
    ensures Prescribed(now, e, w, RelocOf(was, e, n)) == Prescribed(was, e, w, RelocOf(was, e, n))
  {
    TablesStay(was, now, e, w, n);
    U32Agree(was, now, Entry(e, n));
    U32Agree(was, now, Entry(e, n) + 4);
    var r := RelocOf(was, e, n);
    SlotStays(was, now, e, w, n);
    SymbolAgrees(was, now, e, r.sym);
    ResolveAgrees(was, now, e, w, SymName(was, e, r.sym));
  }

  lemma {:induction false} SlotStays(was: Bytes, now: Bytes, e: Elf, w: World, n: nat)
    requires WellFormed(was, e) && Patched(was, now, e, w, n) && n < Count(e)
    ensures U32(now, RelocOf(was, e, n).slot) == U32(was, RelocOf(was, e, n).slot)
  {
    var slot := RelocOf(was, e, n).slot;
    forall k | 0 <= k < n ensures Apart(RelocOf(was, e, k).slot, 4, slot, 4) {}
    ClearStays(was, now, e, w, n, slot, slot + 4);
    U32Agree(was, now, slot);
  }

  lemma {:induction false} SetWordIs(m: Bytes, i: nat, v: nat)
    requires i + 4 <= |m| && v < UINT32
    ensures U32(SetWord(m, i, v), i) == v
    ensures forall j :: 0 <= j < |m| && Apart(j, 1, i, 4) ==> SetWord(m, i, v)[j] == m[j]
    ensures forall j :: Apart(j, 4, i, 4) ==> U32(SetWord(m, i, v), j) == U32(m, j)
  {
    var r := SetWord(m, i, v);
    assert r[i..i + 4] == Le32(v);
    WordOfLe32(v);
    forall j | Apart(j, 4, i, 4) ensures U32(r, j) == U32(m, j) {
      U32Agree(r, m, j);
    }
  }

  /** A slot that is already patched stays as it is. */
  lemma {:induction false} OlderSlot(was: Bytes, now: Bytes, e: Elf, w: World, n: nat, slot: nat, v: nat, k: nat)
    requires WellFormed(was, e) && Patched(was, now, e, w, n) && k < n < Count(e) && v < UINT32
    requires slot == RelocOf(was, e, n).slot && slot + 4 <= |now|
    ensures U32(SetWord(now, slot, v), RelocOf(was, e, k).slot) == U32(now, RelocOf(was, e, k).slot)
  {
    SetWordIs(now, slot, v);
    assert Apart(RelocOf(was, e, k).slot, 4, slot, 4);
  }

  lemma {:induction false} SlotHolds(was: Bytes, now: Bytes, e: Elf, w: World, n: nat, slot: nat, v: nat, k: nat)
    requires WellFormed(was, e) && Patched(was, now, e, w, n) && k <= n < Count(e) && v < UINT32
    requires slot == RelocOf(was, e, n).slot && slot + 4 <= |now| && Prescribed(was, e, w, RelocOf(was, e, n)) == Some(v)
    ensures Prescribed(was, e, w, RelocOf(was, e, k)) == Some(U32(SetWord(now, slot, v), RelocOf(was, e, k).slot))
  {
    if k < n {
      OlderSlot(was, now, e, w, n, slot, v, k);
    } else {
      SetWordIs(now, slot, v);
    }
  }

  lemma {:induction false} OtherByte(was: Bytes, now: Bytes, e: Elf, w: World, n: nat, slot: nat, v: nat, i: nat)
    requires Patched(was, now, e, w, n) && n < Count(e) && v < UINT32 && slot == RelocOf(was, e, n).slot && slot + 4 <= |now|
    requires i < |was| && forall k :: 0 <= k < n + 1 ==> Apart(i, 1, RelocOf(was, e, k).slot, 4)
    ensures SetWord(now, slot, v)[i] == was[i]
  {
    SetWordIs(now, slot, v);
    assert Apart(i, 1, RelocOf(was, e, n).slot, 4);
    assert forall k :: 0 <= k < n ==> Apart(i, 1, RelocOf(was, e, k).slot, 4);
  }

  /** Patching the next slot. */
  lemma {:induction false} PatchedMore(was: Bytes, now: Bytes, e: Elf, w: World, n: nat, v: nat)
    requires WellFormed(was, e) && Patched(was, now, e, w, n) && n < Count(e) && v < UINT32
    requires Prescribed(was, e, w, RelocOf(was, e, n)) == Some(v)
    ensures Patched(was, SetWord(now, RelocOf(was, e, n).slot, v), e, w, n + 1)
  {
    var slot := RelocOf(was, e, n).slot;
    var next := SetWord(now, slot, v);
    forall k | 0 <= k < n + 1
      ensures Prescribed(was, e, w, RelocOf(was, e, k)) == Some(U32(next, RelocOf(was, e, k).slot))
    {
      SlotHolds(was, now, e, w, n, slot, v, k);
    }
    forall i | 0 <= i < |was| && (forall k :: 0 <= k < n + 1 ==> Apart(i, 1, RelocOf(was, e, k).slot, 4))
      ensures next[i] == was[i]
    {
      OtherByte(was, now, e, w, n, slot, v, i);
    }
  }

  // ---------- The methods of the source ----------

  method WriteWord(mem: array<Byte>, i: nat, v: nat)
    requires i + 4 <= mem.Length && v < UINT32
    modifies mem
    ensures mem[..] == SetWord(old(mem[..]), i, v)
  {
    var s := Le32(v);
    mem[i], mem[i + 1], mem[i + 2], mem[i + 3] := s[0], s[1], s[2], s[3];
    assert mem[i..i + 4] == s;
    assert mem[..] == mem[..i] + mem[i..i + 4] + mem[i + 4..];
  }

  /** resolve. */
  method ResolveSymbol(mem: array<Byte>, e: Elf, w: World, name: string) returns (p: nat)
    ensures p == Resolve(mem[..], e, w, name)
  {
    for i := 0 to e.nsyms
      invariant FirstDefined(mem[..], e, name, 0) == FirstDefined(mem[..], e, name, i)
    {
      if SymDefined(mem[..], e, i) && SymValue(mem[..], e, i) != 0 && SymName(mem[..], e, i) == name {
        return Plus(w.loBase, SymValue(mem[..], e, i));
      }
    }
    p := w.dlsym(name);
    if p != 0 {
      return;
    }
    p := LegacyAbi(w, name);
  }

  /** One turn of the inner loop: the value, or nothing where the source gives up. */
  method RelocValue(mem: array<Byte>, e: Elf, w: World, r: Reloc) returns (v: Option<nat>)
    ensures v == Prescribed(mem[..], e, w, r)
  {
    if r.kind == R_ARM_RELATIVE {
      return Some(Plus(U32(mem[..], r.slot), w.loBase));
    }
    if r.kind != R_ARM_GLOB_DAT && r.kind != R_ARM_JUMP_SLOT && r.kind != R_ARM_ABS32 {
      return None;
    }
    var val := ResolveSymbol(mem, e, w, SymName(mem[..], e, r.sym));
    if val == 0 {
      return None;
    }
    if r.kind == R_ARM_ABS32 {
      v := Some(Plus(U32(mem[..], r.slot), val));
    } else {
      v := Some(val % UINT32);
    }
  }

  /** One entry. */
  method ApplyReloc(mem: array<Byte>, e: Elf, w: World, ghost n: nat, at: nat, ghost was: Bytes) returns (ok: bool)
    requires WellFormed(was, e) && n < Count(e) && at == Entry(e, n) && Patched(was, mem[..], e, w, n)
    modifies mem
    ensures ok == Prescribed(was, e, w, RelocOf(was, e, n)).Some?
    ensures ok ==> Patched(was, mem[..], e, w, n + 1)
  {
    ghost var now := mem[..];
    NextReads(was, now, e, w, n);
    var r := RelocAt(mem[..], e, at);
    var v := RelocValue(mem, e, w, r);
    PrescribedIsWord(was, e, w, r);
    match v
    case None => ok := false;
    case Some(x) =>
      WriteWord(mem, r.slot, x);
      PatchedMore(was, now, e, w, n, x);
      ok := true;
  }

  /** The two relocation passes: they succeed exactly when every entry prescribes a value, and then every
      slot holds the value its entry prescribes for the image as it was, and every other byte is as it was. */
  method Relocate(mem: array<Byte>, e: Elf, w: World) returns (ok: bool)
    requires WellFormed(mem[..], e)
    modifies mem
    ensures ok <==> AllPrescribed(old(mem[..]), e, w, Count(e))
    ensures ok ==> Patched(old(mem[..]), mem[..], e, w, Count(e))
    ensures ok <==> forall k :: 0 <= k < Count(e) ==> Feasible(old(mem[..]), e, w, k)
    ensures ok ==> forall k :: 0 <= k < Count(e) ==> CarriedOut(old(mem[..]), mem[..], e, w, k)
  {
    ok := RelocatePasses(mem, e, w);
    forall k | 0 <= k < Count(e)
      ensures Prescribed(old(mem[..]), e, w, RelocOf(old(mem[..]), e, k)).Some? <==> Feasible(old(mem[..]), e, w, k)
      ensures ok ==> CarriedOut(old(mem[..]), mem[..], e, w, k)
    {
      PrescribedMeans(old(mem[..]), mem[..], e, w, k);
    }
  }

  /** Their loops. */
  method RelocatePasses(mem: array<Byte>, e: Elf, w: World) returns (ok: bool)
    requires WellFormed(mem[..], e)
    modifies mem
    ensures ok <==> AllPrescribed(old(mem[..]), e, w, Count(e))
    ensures ok ==> Patched(old(mem[..]), mem[..], e, w, Count(e))
  {
    ghost var was := mem[..];
    for pass := 0 to 2
      invariant var done := if pass == 0 then 0 else if pass == 1 then e.nrel else Count(e);
                AllPrescribed(was, e, w, done) && Patched(was, mem[..], e, w, done)
    {
      var table, n := if pass == 0 then e.rel else e.jmprel, if pass == 0 then e.nrel else e.njmprel;
      ghost var before := if pass == 0 then 0 else e.nrel;
      for k := 0 to n
        invariant AllPrescribed(was, e, w, before + k) && Patched(was, mem[..], e, w, before + k)
      {
        ok := ApplyReloc(mem, e, w, before + k, table + 8 * k, was);
        if !ok {
          return;
        }
      }
    }
    ok := true;
  }
}
