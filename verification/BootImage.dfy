/** The page-aligned boot image container of a1000_bootimg_tool.py and the replace command on top of it. */
module BootImage {
  import opened Bytes
  import opened Options
  import opened Arithmetic
  import Cpio

  const MAGIC: Bytes := [65, 78, 68, 82, 79, 73, 68, 33]   // ANDROID!

  datatype Hdr = Hdr(ks: nat, rs: nat, ss: nat, ps: nat, dts: nat)

  datatype Parts = Parts(h: Hdr, kernel: Bytes, ramdisk: Bytes, dt: Bytes)

  // ---------- The functions of the source ----------

  /** parse_hdr: it ends the program unless the magic and the nine header words are there. */
  function ParseHdr(d: Bytes): Option<Hdr> {
    if |d| < 44 || d[..8] != MAGIC then None
    else Some(Hdr(Word(d[8..12]), Word(d[16..20]), Word(d[24..28]), Word(d[36..40]), Word(d[40..44])))
  }

  /** pad_to: n rounded up to whole pages. */
  function PadTo(n: nat, ps: nat): (m: nat)
    requires ps > 0
    ensures n <= m < n + ps && (n == 0 <==> m == 0)
    decreases n
  {
    if n == 0 then 0 else if n <= ps then ps else ps + PadTo(n - ps, ps)
  }

  /** The formula of the source. */
  lemma {:induction false} PadToFormula(n: nat, ps: nat)
    requires ps > 0
    ensures PadTo(n, ps) == (n + ps - 1) / ps * ps
    decreases n
  {
    if n == 0 {
      DivisionIsUnique(n + ps - 1, ps, 0, ps - 1);
    } else if n <= ps {
      DivisionIsUnique(n + ps - 1, ps, 1, n - 1);
    } else {
      PadToFormula(n - ps, ps);
      MultipleMod(n - 1, ps, 1);
    }
  }

  /** Where the parts begin depends on all sizes before them, the second stage's too. */
  function RamdiskAt(h: Hdr): nat
    requires h.ps > 0
  {
    h.ps + PadTo(h.ks, h.ps)
  }

  function SecondAt(h: Hdr): nat
    requires h.ps > 0
  {
    RamdiskAt(h) + PadTo(h.rs, h.ps)
  }

  function DtAt(h: Hdr): nat
    requires h.ps > 0
  {
    SecondAt(h) + PadTo(h.ss, h.ps)
  }

  function PartsOf(d: Bytes, h: Hdr): Parts
    requires h.ps > 0
  {
    Cut(d, h, h.ps, RamdiskAt(h), DtAt(h))
  }

  function Cut(d: Bytes, h: Hdr, k: nat, r: nat, t: nat): Parts {
    Parts(h, Slice(d, k, k + h.ks), Slice(d, r, r + h.rs), Slice(d, t, t + h.dts))
  }

  /** split. */
  function Split(d: Bytes): Option<Parts> {
    match ParseHdr(d)
    case None => None
    case Some(h) => if h.ps == 0 then None else Some(PartsOf(d, h))
  }

  function Padded(s: Bytes, ps: nat): (t: Bytes)
    requires ps > 0
    ensures |t| == PadTo(|s|, ps)
  {
    s + Zeros(PadTo(|s|, ps) - |s|)
  }

  /** The header page with the sizes of kernel and ramdisk rewritten; no other field changes. */
  function HeaderPage(orig: Bytes, ps: nat, ks: nat, rs: nat): Bytes
    requires ks < 0x1_0000_0000 && rs < 0x1_0000_0000
  {
    SetSlice(SetSlice(Slice(orig, 0, ps), 8, 12, Le32(ks)), 16, 20, Le32(rs))
  }

  /** assemble: nothing when a size does not fit its field or the parts do not fit the partition. */
  function Assemble(orig: Bytes, kernel: Bytes, rd: Bytes, dt: Bytes): (r: Option<Bytes>)
    ensures r.Some? ==> |r.value| == |orig|
  {
    match ParseHdr(orig)
    case None => None
    case Some(h) =>
      if h.ps == 0 || |kernel| >= 0x1_0000_0000 || |rd| >= 0x1_0000_0000 then None
      else
        var out := HeaderPage(orig, h.ps, |kernel|, |rd|) + Padded(kernel, h.ps) + Padded(rd, h.ps) + Padded(dt, h.ps);
        if |out| > |orig| then None else Some(out + Zeros(|orig| - |out|))
  }

  /** assemble as the source writes it, growing one buffer. */
  method AssembleImage(orig: Bytes, kernel: Bytes, rd: Bytes, dt: Bytes) returns (r: Option<Bytes>)
    ensures r == Assemble(orig, kernel, rd, dt)
  {
    var h := ParseHdr(orig);
    if h.None? || h.value.ps == 0 || |kernel| >= 0x1_0000_0000 || |rd| >= 0x1_0000_0000 {
      return None;
    }
    var ps := h.value.ps;
    var hdr := Slice(orig, 0, ps);
    hdr := SetSlice(hdr, 8, 12, Le32(|kernel|));
    hdr := SetSlice(hdr, 16, 20, Le32(|rd|));
    var out := hdr;
    out := out + (kernel + Zeros(PadTo(|kernel|, ps) - |kernel|));
    out := out + (rd + Zeros(PadTo(|rd|, ps) - |rd|));
    out := out + (dt + Zeros(PadTo(|dt|, ps) - |dt|));
    if |out| > |orig| {
      return None;
    }
    out := out + Zeros(|orig| - |out|);
    r := Some(out);
  }

  // ---------- Assembling, then splitting ----------

  /** An image whose header fits in its first page. */
  ghost predicate Image(d: Bytes) {
    ParseHdr(d).Some? && 44 <= ParseHdr(d).value.ps <= |d|
  }

  lemma {:induction false} SetSliceKeeps(s: Bytes, lo: nat, hi: nat, v: Bytes, i: nat, j: nat)
    requires lo <= hi <= |s| && |v| == hi - lo && i <= j <= |s| && (j <= lo || hi <= i)
    ensures |SetSlice(s, lo, hi, v)| == |s| && SetSlice(s, lo, hi, v)[i..j] == s[i..j]
  {
    var t := SetSlice(s, lo, hi, v);
    forall x | i <= x < j ensures t[x] == s[x] {
      if x < lo {
        assert t[..lo][x] == s[..lo][x];
      } else {
        assert t[hi..][x - hi] == s[hi..][x - hi];
      }
    }
  }

  /** A field other than the two sizes. */
  lemma {:induction false} FieldKept(orig: Bytes, ps: nat, ks: nat, rs: nat, rest: Bytes, i: nat, j: nat)
    requires 44 <= ps <= |orig| && ks < 0x1_0000_0000 && rs < 0x1_0000_0000
    requires i <= j <= ps && (j <= 8 || 12 <= i) && (j <= 16 || 20 <= i)
    ensures (HeaderPage(orig, ps, ks, rs) + rest)[i..j] == orig[i..j]
  {
    var p0 := orig[..ps];
    var p1 := SetSlice(p0, 8, 12, Le32(ks));
    SetSliceKeeps(p0, 8, 12, Le32(ks), i, j);
    SetSliceKeeps(p1, 16, 20, Le32(rs), i, j);
    assert (HeaderPage(orig, ps, ks, rs) + rest)[i..j] == HeaderPage(orig, ps, ks, rs)[i..j] == p0[i..j] == orig[i..j];
  }

  lemma {:induction false} SizesSet(orig: Bytes, ps: nat, ks: nat, rs: nat, rest: Bytes)
    requires 44 <= ps <= |orig| && ks < 0x1_0000_0000 && rs < 0x1_0000_0000
    ensures var page := HeaderPage(orig, ps, ks, rs);
            |page| == ps && Word((page + rest)[8..12]) == ks && Word((page + rest)[16..20]) == rs
  {
    var p1 := SetSlice(orig[..ps], 8, 12, Le32(ks));
    var page := HeaderPage(orig, ps, ks, rs);
    SetSliceKeeps(p1, 16, 20, Le32(rs), 8, 12);
    assert (page + rest)[8..12] == page[8..12] == Le32(ks);
    assert (page + rest)[16..20] == page[16..20] == Le32(rs);
    WordOfLe32(ks);
    WordOfLe32(rs);
  }

  lemma {:induction false} HeaderPageFields(orig: Bytes, h: Hdr, ks: nat, rs: nat, rest: Bytes)
    requires Image(orig) && ParseHdr(orig) == Some(h) && ks < 0x1_0000_0000 && rs < 0x1_0000_0000
    ensures var page := HeaderPage(orig, h.ps, ks, rs);
            |page| == h.ps && ParseHdr(page + rest) == Some(Resized(h, ks, rs))
  {
    FieldKept(orig, h.ps, ks, rs, rest, 0, 8);
    FieldKept(orig, h.ps, ks, rs, rest, 24, 28);
    FieldKept(orig, h.ps, ks, rs, rest, 36, 40);
    FieldKept(orig, h.ps, ks, rs, rest, 40, 44);
    SizesSet(orig, h.ps, ks, rs, rest);
  }

  lemma {:induction false} PartsAt(page: Bytes, k: Bytes, r: Bytes, area: Bytes, ps: nat, d: Bytes, rr: nat, s: nat)
    requires ps > 0 && |page| == ps && rr == ps + PadTo(|k|, ps) && s == rr + PadTo(|r|, ps)
    requires d == page + Padded(k, ps) + Padded(r, ps) + area
    ensures Slice(d, ps, ps + |k|) == k && Slice(d, rr, rr + |r|) == r && From(d, s) == area
  {
    assert d[ps..ps + |k|] == k;
    assert d[rr..rr + |r|] == r;
    assert d[s..] == area;
  }

  lemma {:induction false} Offsets(h: Hdr, r: nat, s: nat, t: nat)
    requires h.ps > 0 && r == h.ps + PadTo(h.ks, h.ps) && s == r + PadTo(h.rs, h.ps) && t == s + PadTo(h.ss, h.ps)
    ensures RamdiskAt(h) == r && DtAt(h) == t
  {}

  /** The parts, with their offsets named. */
  lemma {:induction false} SplitIs(d: Bytes, h: Hdr, ps: nat, k: Bytes, m: Bytes, e: Bytes, r: nat, t: nat, end: nat)
    requires h.ps == ps > 0 && h.ks == |k| && h.rs == |m| && RamdiskAt(h) == r && DtAt(h) == t && end == t + h.dts
    requires Slice(d, ps, ps + |k|) == k && Slice(d, r, r + |m|) == m && Slice(d, t, end) == e
    ensures PartsOf(d, h) == Parts(h, k, m, e)
  {}

  lemma {:induction false} AssembleIs(orig: Bytes, h: Hdr, page: Bytes, kernel: Bytes, rd: Bytes, dt: Bytes, head: Bytes, out: Bytes)
    requires ParseHdr(orig) == Some(h) && h.ps > 0 && |kernel| < 0x1_0000_0000 && |rd| < 0x1_0000_0000
    requires page == HeaderPage(orig, h.ps, |kernel|, |rd|)
    requires head == page + Padded(kernel, h.ps) + Padded(rd, h.ps) && |head| + PadTo(|dt|, h.ps) <= |orig|
    requires out == head + Padded(dt, h.ps) + Zeros(|orig| - |head + Padded(dt, h.ps)|)
    ensures Assemble(orig, kernel, rd, dt) == Some(out)
  {}

  /** What assemble writes: the header page, the two padded parts, and the area that begins with the
      device tree and is zero from there to the end of the partition. */
  lemma {:induction false} AssembledShape(orig: Bytes, kernel: Bytes, rd: Bytes, dt: Bytes, out: Bytes, h: Hdr)
                           returns (page: Bytes, area: Bytes)
    requires Image(orig) && Assemble(orig, kernel, rd, dt) == Some(out) && ParseHdr(orig) == Some(h)
    ensures |kernel| < 0x1_0000_0000 && |rd| < 0x1_0000_0000 && page == HeaderPage(orig, h.ps, |kernel|, |rd|)
    ensures |area| >= |dt| && area == dt + Zeros(|area| - |dt|)
    ensures out == page + (Padded(kernel, h.ps) + Padded(rd, h.ps) + area)
  {
    page := HeaderPage(orig, h.ps, |kernel|, |rd|);
    var k, m, d := Padded(kernel, h.ps), Padded(rd, h.ps), Padded(dt, h.ps);
    var zeros := Zeros(|orig| - |page + k + m + d|);
    area := d + zeros;
    assert out == page + k + m + d + zeros == page + (k + m + area);
    assert area == dt + (Zeros(|d| - |dt|) + zeros) == dt + Zeros(|area| - |dt|);
  }

  /** Kernel and ramdisk always come back, and the length is the original's. The device tree is looked
      for in the area where it was put, but behind a second stage that assemble does not write. */
  lemma {:induction false} AssembledParts(orig: Bytes, kernel: Bytes, rd: Bytes, dt: Bytes, out: Bytes, h: Hdr)
                           returns (area: Bytes, gap: nat)
    requires Image(orig) && Assemble(orig, kernel, rd, dt) == Some(out) && ParseHdr(orig) == Some(h)
    ensures |area| >= |dt| && area == dt + Zeros(|area| - |dt|)
    ensures |area| == |orig| - h.ps - PadTo(|kernel|, h.ps) - PadTo(|rd|, h.ps) && gap == PadTo(h.ss, h.ps)
    ensures |out| == |orig|
    ensures Split(out) == Some(Parts(Resized(h, |kernel|, |rd|), kernel, rd, Slice(area, gap, gap + h.dts)))
  {
    var page;
    page, area := AssembledShape(orig, kernel, rd, dt, out, h);
    gap := PadTo(h.ss, h.ps);
    HeaderPageFields(orig, h, |kernel|, |rd|, Padded(kernel, h.ps) + Padded(rd, h.ps) + area);
    SplitPages(out, Resized(h, |kernel|, |rd|), h.ps, page, kernel, rd, area, gap);
    SplitOf(out, Resized(h, |kernel|, |rd|));
  }

  lemma {:induction false} SplitOf(d: Bytes, h: Hdr)
    requires ParseHdr(d) == Some(h) && h.ps > 0
    ensures Split(d) == Some(PartsOf(d, h))
  {}

  lemma {:induction false} SplitPages(d: Bytes, h: Hdr, ps: nat, page: Bytes, k: Bytes, m: Bytes, area: Bytes, gap: nat)
    requires h.ps == ps > 0 && h.ks == |k| && h.rs == |m| && gap == PadTo(h.ss, ps)
    requires |page| == ps && d == page + (Padded(k, ps) + Padded(m, ps) + area)
    ensures |area| == |d| - ps - PadTo(|k|, ps) - PadTo(|m|, ps)
    ensures PartsOf(d, h) == Parts(h, k, m, Slice(area, gap, gap + h.dts))
  {
    var r := ps + PadTo(|k|, ps);
    var s := r + PadTo(|m|, ps);
    PagesAt(page, k, m, area, ps, d, r, s);
    SplitFound(d, h, ps, k, m, area, gap, r, s);
  }

  lemma {:induction false} PagesAt(page: Bytes, k: Bytes, r: Bytes, area: Bytes, ps: nat, d: Bytes, rr: nat, s: nat)
    requires ps > 0 && |page| == ps && rr == ps + PadTo(|k|, ps) && s == rr + PadTo(|r|, ps)
    requires d == page + (Padded(k, ps) + Padded(r, ps) + area)
    ensures |area| == |d| - s
    ensures Slice(d, ps, ps + |k|) == k && Slice(d, rr, rr + |r|) == r && From(d, s) == area
  {
    assert d == page + Padded(k, ps) + Padded(r, ps) + area;
    PartsAt(page, k, r, area, ps, d, rr, s);
  }

  lemma {:induction false} SplitFound(d: Bytes, h: Hdr, ps: nat, k: Bytes, m: Bytes, area: Bytes, gap: nat, r: nat, s: nat)
    requires h.ps == ps > 0 && h.ks == |k| && h.rs == |m| && gap == PadTo(h.ss, ps)
    requires r == ps + PadTo(|k|, ps) && s == r + PadTo(|m|, ps)
    requires Slice(d, ps, ps + |k|) == k && Slice(d, r, r + |m|) == m && From(d, s) == area
    ensures PartsOf(d, h) == Parts(h, k, m, Slice(area, gap, gap + h.dts))
  {
    var t := s + gap;
    SliceOfFrom(d, s, area, gap, h.dts, t, t + h.dts);
    Offsets(h, r, s, t);
    SplitIs(d, h, ps, k, m, Slice(area, gap, gap + h.dts), r, t, t + h.dts);
  }

  lemma {:induction false} SliceOfFrom(s: Bytes, q: nat, area: Bytes, i: nat, n: nat, t: nat, end: nat)
    requires area == From(s, q) && t == q + i && end == t + n
    ensures Slice(s, t, end) == Slice(area, i, i + n)
  {}

  function Resized(h: Hdr, ks: nat, rs: nat): Hdr {
    Hdr(ks, rs, h.ss, h.ps, h.dts)
  }

  /** How many bytes of the area the device tree is looked for in: n bytes behind the gap, as far as
      the partition goes. */
  function Reach(area: nat, gap: nat, n: nat): (m: nat)
    ensures m <= n
  {
    Clamp(gap + n, area) - Clamp(gap, area)
  }

  /** A padded string that is found again further on is a string of zeros. */
  lemma {:induction false} ShiftedIsZero(dt: Bytes, area: Bytes, t: nat, i: nat)
    requires |area| >= |dt| && area == dt + Zeros(|area| - |dt|) && t > 0 && i <= |dt|
    requires t + |dt| <= |area| && area[t..t + |dt|] == dt
    ensures forall j :: i <= j < |dt| ==> dt[j] == 0
    decreases |dt| - i
  {
    if i < |dt| {
      ShiftedIsZero(dt, area, t, i + 1);
      assert dt[i] == area[t..t + |dt|][i] == area[t + i];
    }
  }

  lemma {:induction false} ZerosAgain(dt: Bytes, area: Bytes, gap: nat)
    requires |area| >= |dt| && area == dt + Zeros(|area| - |dt|) && gap + |dt| <= |area| && dt == Zeros(|dt|)
    ensures area[gap..gap + |dt|] == dt
  {
    assert area == Zeros(|area|);
  }

  lemma {:induction false} FoundAtIff(dt: Bytes, area: Bytes, gap: nat)
    requires |area| >= |dt| && area == dt + Zeros(|area| - |dt|) && gap + |dt| <= |area|
    ensures area[gap..gap + |dt|] == dt <==> gap == 0 || dt == Zeros(|dt|)
  {
    if gap == 0 {
      assert area[..|dt|] == dt;
    } else if area[gap..gap + |dt|] == dt {
      ShiftedIsZero(dt, area, gap, 0);
    }
    if dt == Zeros(|dt|) {
      ZerosAgain(dt, area, gap);
    }
  }

  lemma {:induction false} FoundAgainIff(dt: Bytes, area: Bytes, gap: nat, n: nat)
    requires |area| >= |dt| && area == dt + Zeros(|area| - |dt|)
    ensures Slice(area, gap, gap + n) == dt <==>
              |dt| == Reach(|area|, gap, n) && (gap == 0 || dt == Zeros(|dt|))
  {
    if |dt| != Reach(|area|, gap, n) {
      assert |Slice(area, gap, gap + n)| != |dt|;
    } else if |dt| == 0 {
      assert |Slice(area, gap, gap + n)| == 0;
    } else {
      assert Slice(area, gap, gap + n) == area[gap..gap + |dt|];
      FoundAtIff(dt, area, gap);
    }
  }

  /** What is left of the partition for the device tree. */
  function Room(orig: Bytes, h: Hdr, kernel: Bytes, rd: Bytes): int
    requires h.ps > 0
  {
    |orig| - h.ps - PadTo(|kernel|, h.ps) - PadTo(|rd|, h.ps)
  }

  /** Whether the device tree is found where the header makes split look for it. */
  ghost predicate Found(orig: Bytes, h: Hdr, kernel: Bytes, rd: Bytes, dt: Bytes)
    requires h.ps > 0 && Room(orig, h, kernel, rd) >= 0
  {
    |dt| == Reach(Room(orig, h, kernel, rd), PadTo(h.ss, h.ps), h.dts) && (h.ss == 0 || dt == Zeros(|dt|))
  }

  /** The container round trip, exactly: kernel and ramdisk always come back. The device tree does if and
      only if it is as long as the header says, cut off at the end of the partition, and there is no second
      stage that assemble would have had to write, or nothing but zeros to be found behind its gap. */
  lemma {:induction false} RoundTrip(orig: Bytes, kernel: Bytes, rd: Bytes, dt: Bytes, out: Bytes, h: Hdr)
    requires Image(orig) && Assemble(orig, kernel, rd, dt) == Some(out) && ParseHdr(orig) == Some(h)
    ensures |out| == |orig| && Room(orig, h, kernel, rd) >= |dt|
    ensures Split(out).Some? && Split(out).value.(dt := dt) == Parts(Resized(h, |kernel|, |rd|), kernel, rd, dt)
    ensures Split(out).value.dt == dt <==> Found(orig, h, kernel, rd, dt)
    ensures h.ss == 0 && |dt| == h.dts ==> Found(orig, h, kernel, rd, dt)
  {
    var area, gap := AssembledParts(orig, kernel, rd, dt, out, h);
    FoundIff(Split(out), orig, h, kernel, rd, dt, area, gap);
  }

  lemma {:induction false} FoundIff(split: Option<Parts>, orig: Bytes, h: Hdr, kernel: Bytes, rd: Bytes, dt: Bytes, area: Bytes, gap: nat)
    requires h.ps > 0 && gap == PadTo(h.ss, h.ps) && |area| == Room(orig, h, kernel, rd)
    requires split == Some(Parts(Resized(h, |kernel|, |rd|), kernel, rd, Slice(area, gap, gap + h.dts)))
    requires |area| >= |dt| && area == dt + Zeros(|area| - |dt|)
    ensures split.Some? && split.value.(dt := dt) == Parts(Resized(h, |kernel|, |rd|), kernel, rd, dt)
    ensures split.value.dt == dt <==> Found(orig, h, kernel, rd, dt)
    ensures h.ss == 0 && |dt| == h.dts ==> Found(orig, h, kernel, rd, dt)
  {
    FoundAgainIff(dt, area, gap, h.dts);
  }

  // ---------- An empty partition ----------

  /** The header of a boot image: the magic and nine words. */
  function Header(ks: nat, ka: nat, rs: nat, ra: nat, ss: nat, sa: nat, ta: nat, ps: nat, dts: nat): (d: Bytes)
    requires ks < 0x1_0000_0000 && ka < 0x1_0000_0000 && rs < 0x1_0000_0000 && ra < 0x1_0000_0000 && ss < 0x1_0000_0000
    requires sa < 0x1_0000_0000 && ta < 0x1_0000_0000 && ps < 0x1_0000_0000 && dts < 0x1_0000_0000
    ensures |d| == 44
  {
    [65, 78, 68, 82, 79, 73, 68, 33] + (Le32(ks) + Le32(ka)) + (Le32(rs) + Le32(ra)) +
    (Le32(ss) + Le32(sa)) + (Le32(ta) + Le32(ps)) + Le32(dts)
  }

  lemma {:induction false} TwoWords(d: Bytes, at: nat, v: nat, w: nat)
    requires v < 0x1_0000_0000 && w < 0x1_0000_0000 && at + 8 <= |d| && d[at..at + 8] == Le32(v) + Le32(w)
    ensures Word(d[at..at + 4]) == v && Word(d[at + 4..at + 8]) == w
  {
    assert d[at..at + 4] == d[at..at + 8][..4] && d[at + 4..at + 8] == d[at..at + 8][4..];
    WordOfLe32(v);
    WordOfLe32(w);
  }

  /** parse_hdr goes by the length and the eight letters ANDROID! alone. */
  lemma {:induction false} HeaderIff(d: Bytes)
    ensures ParseHdr(d).Some? <==> |d| >= 44 && d[..8] == [65, 78, 68, 82, 79, 73, 68, 33]
  {
    assert MAGIC == [65, 78, 68, 82, 79, 73, 68, 33];
  }

  /** parse_hdr picks the sizes of kernel, ramdisk and second stage, the page size and the size of the device
      tree out of it. */
  lemma {:induction false} HeaderReads(ks: nat, ka: nat, rs: nat, ra: nat, ss: nat, sa: nat, ta: nat, ps: nat, dts: nat, rest: Bytes)
    requires ks < 0x1_0000_0000 && ka < 0x1_0000_0000 && rs < 0x1_0000_0000 && ra < 0x1_0000_0000 && ss < 0x1_0000_0000
    requires sa < 0x1_0000_0000 && ta < 0x1_0000_0000 && ps < 0x1_0000_0000 && dts < 0x1_0000_0000
    ensures ParseHdr(Header(ks, ka, rs, ra, ss, sa, ta, ps, dts) + rest) == Some(Hdr(ks, rs, ss, ps, dts))
  {
    var d := Header(ks, ka, rs, ra, ss, sa, ta, ps, dts) + rest;
    assert d[..8] == MAGIC && d[8..16] == Le32(ks) + Le32(ka) && d[16..24] == Le32(rs) + Le32(ra);
    assert d[24..32] == Le32(ss) + Le32(sa) && d[32..40] == Le32(ta) + Le32(ps) && d[40..44] == Le32(dts);
    TwoWords(d, 8, ks, ka);
    TwoWords(d, 16, rs, ra);
    TwoWords(d, 24, ss, sa);
    TwoWords(d, 32, ta, ps);
    WordOfLe32(dts);
  }

  /** 2048-byte pages, no kernel and ramdisk yet, and n bytes to put them. */
  function Blank(ss: nat, dts: nat, n: nat): Bytes
    requires ss < 0x1_0000_0000 && dts < 0x1_0000_0000
  {
    Header(0, 0, 0, 0, ss, 0, 0, 2048, dts) + Zeros(n)
  }

  lemma {:induction false} BlankHeader(ss: nat, dts: nat, n: nat)
    requires ss < 0x1_0000_0000 && dts < 0x1_0000_0000 && n >= 2048
    ensures Image(Blank(ss, dts, n)) && ParseHdr(Blank(ss, dts, n)) == Some(Hdr(0, 0, ss, 2048, dts))
    ensures |Blank(ss, dts, n)| == 44 + n
  {
    HeaderReads(0, 0, 0, 0, ss, 0, 0, 2048, dts, Zeros(n));
  }

  /** With a second stage every device tree but one of zeros is lost: split looks for it too far on. */
  lemma {:induction false} SecondStageHidesDt(ss: nat, dt: Bytes) returns (orig: Bytes, out: Bytes)
    requires 0 < ss < 0x1_0000_0000 && |dt| < 0x1_0000_0000 && dt != Zeros(|dt|)
    ensures Image(orig) && Assemble(orig, [], [], dt) == Some(out)
    ensures ParseHdr(orig).value.ss == ss && ParseHdr(orig).value.dts == |dt| && Split(out).Some? && Split(out).value.dt != dt
  {
    var n := 2048 + PadTo(|dt|, 2048);
    orig := Blank(ss, |dt|, n);
    BlankHeader(ss, |dt|, n);
    SizesSet(orig, 2048, 0, 0, []);
    out := Assemble(orig, [], [], dt).value;
    RoundTrip(orig, [], [], dt, out, ParseHdr(orig).value);
  }

  /** assemble gives up exactly when a size does not fit its word or the pages do not fit the partition. */
  lemma {:induction false} AssembleFailsIff(orig: Bytes, h: Hdr, kernel: Bytes, rd: Bytes, dt: Bytes)
    requires Image(orig) && ParseHdr(orig) == Some(h)
    ensures Assemble(orig, kernel, rd, dt) == None <==>
              |kernel| >= 0x1_0000_0000 || |rd| >= 0x1_0000_0000 ||
              h.ps + PadTo(|kernel|, h.ps) + PadTo(|rd|, h.ps) + PadTo(|dt|, h.ps) > |orig|
  {
    if |kernel| < 0x1_0000_0000 && |rd| < 0x1_0000_0000 {
      SizesSet(orig, h.ps, |kernel|, |rd|, []);
    }
  }

  // ---------- Splitting, then assembling ----------

  ghost predicate ZeroAfter(s: Bytes, n: nat) {
    n <= |s| && s[n..] == Zeros(|s| - n)
  }

  lemma {:induction false} Pieces(a: Bytes, b: Bytes, c: Bytes, b': Bytes, c': Bytes)
    requires |b| == |b'|
    ensures a + b + c == a + b' + c' <==> b == b' && c == c'
  {
    if a + b + c == a + b' + c' {
      assert b == (a + b + c)[|a|..|a| + |b|] == b';
      assert c == (a + b + c)[|a| + |b|..] == c';
    }
  }

  lemma {:induction false} Layout(n: nat, ps: nat, page: Bytes, kernel: Bytes, rd: Bytes, dt: Bytes, r: nat, t: nat) returns (out: Bytes)
    requires ps > 0 && |page| == ps && r == ps + PadTo(|kernel|, ps) && t == r + PadTo(|rd|, ps) && t + PadTo(|dt|, ps) <= n
    ensures var head := page + Padded(kernel, ps) + Padded(rd, ps);
            |head| == t && out == head + Padded(dt, ps) + Zeros(n - |head + Padded(dt, ps)|)
    ensures |out| == n
    ensures out == page + (kernel + Zeros(r - ps - |kernel|)) + ((rd + Zeros(t - r - |rd|)) + (dt + Zeros(n - t - |dt|)))
  {
    var k, m, e := Padded(kernel, ps), Padded(rd, ps), Padded(dt, ps);
    var free := Zeros(n - |page + k + m + e|);
    out := page + k + m + e + free;
    assert out == page + k + (m + (e + free));
    assert e + free == dt + (Zeros(|e| - |dt|) + free) == dt + Zeros(n - t - |dt|);
  }

  lemma {:induction false} PartsInside(d: Bytes, h: Hdr, p: Parts, r: nat, t: nat)
    requires h.ps > 0 && h.ss == 0 && p == PartsOf(d, h)
    requires r == h.ps + PadTo(h.ks, h.ps) && t == r + PadTo(h.rs, h.ps) && t + h.dts <= |d|
    ensures p.kernel == d[h.ps..h.ps + h.ks] && p.ramdisk == d[r..r + h.rs] && p.dt == d[t..t + h.dts]
  {
    Offsets(h, r, t, t);
  }

  lemma {:induction false} PagesOf(d: Bytes, ps: nat, k: Bytes, m: Bytes, e: Bytes, r: nat, t: nat) returns (out: Bytes)
    requires 0 < ps && r == ps + PadTo(|k|, ps) && t == r + PadTo(|m|, ps) && t + PadTo(|e|, ps) <= |d|
    requires k == d[ps..ps + |k|] && m == d[r..r + |m|] && e == d[t..t + |e|]
    ensures var head := d[..ps] + Padded(k, ps) + Padded(m, ps);
            |head| == t && out == head + Padded(e, ps) + Zeros(|d| - |head + Padded(e, ps)|)
    ensures |out| == |d|
    ensures out == d <==> ZeroAfter(d[ps..r], |k|) && ZeroAfter(d[r..t], |m|) && ZeroAfter(d[t..], |e|)
  {
    out := Layout(|d|, ps, d[..ps], k, m, e, r, t);
    ReassembledIff(d, out, ps, k, r, m, t, e);
  }

  lemma {:induction false} SplitInside(d: Bytes, h: Hdr, p: Parts, r: nat, t: nat)
    requires Image(d) && ParseHdr(d) == Some(h) && h.ss == 0 && Split(d) == Some(p)
    requires r == h.ps + PadTo(h.ks, h.ps) && t == r + PadTo(h.rs, h.ps) && t + h.dts <= |d|
    ensures p.kernel == d[h.ps..h.ps + h.ks] && p.ramdisk == d[r..r + h.rs] && p.dt == d[t..t + h.dts]
    ensures |p.kernel| == h.ks && |p.ramdisk| == h.rs && |p.dt| == h.dts
  {
    SplitOf(d, h);
    PartsInside(d, h, p, r, t);
  }

  /** On an image without a second stage whose parts all fit, taking it apart and assembling it again
      gives an image of the same length, the same image if and only if its padding is zero. */
  lemma {:induction false} Reassembled(d: Bytes, h: Hdr, p: Parts, r: nat, t: nat) returns (out: Bytes)
    requires Image(d) && ParseHdr(d) == Some(h) && h.ss == 0 && Split(d) == Some(p)
    requires r == h.ps + PadTo(h.ks, h.ps) && t == r + PadTo(h.rs, h.ps) && t + PadTo(h.dts, h.ps) <= |d|
    ensures Assemble(d, p.kernel, p.ramdisk, p.dt) == Some(out) && |out| == |d|
    ensures out == d <==> ZeroAfter(d[h.ps..r], h.ks) && ZeroAfter(d[r..t], h.rs) && ZeroAfter(d[t..], h.dts)
  {
    SplitInside(d, h, p, r, t);
    out := PartsReassembled(d, h, p.kernel, p.ramdisk, p.dt, r, t);
  }

  lemma {:induction false} PartsReassembled(d: Bytes, h: Hdr, k: Bytes, m: Bytes, e: Bytes, r: nat, t: nat) returns (out: Bytes)
    requires Image(d) && ParseHdr(d) == Some(h) && |k| == h.ks && |m| == h.rs && |e| == h.dts
    requires r == h.ps + PadTo(|k|, h.ps) && t == r + PadTo(|m|, h.ps) && t + PadTo(|e|, h.ps) <= |d|
    requires k == d[h.ps..h.ps + |k|] && m == d[r..r + |m|] && e == d[t..t + |e|]
    ensures Assemble(d, k, m, e) == Some(out) && |out| == |d|
    ensures out == d <==> ZeroAfter(d[h.ps..r], |k|) && ZeroAfter(d[r..t], |m|) && ZeroAfter(d[t..], |e|)
  {
    out := PagesOf(d, h.ps, k, m, e, r, t);
    Assembles(d, h, k, m, e, t, out);
  }

  lemma {:induction false} Assembles(d: Bytes, h: Hdr, k: Bytes, m: Bytes, e: Bytes, t: nat, out: Bytes)
    requires Image(d) && ParseHdr(d) == Some(h) && |k| == h.ks && |m| == h.rs && t + PadTo(|e|, h.ps) <= |d|
    requires var head := d[..h.ps] + Padded(k, h.ps) + Padded(m, h.ps);
             |head| == t && out == head + Padded(e, h.ps) + Zeros(|d| - |head + Padded(e, h.ps)|)
    ensures Assemble(d, k, m, e) == Some(out)
  {
    SamePage(d);
    AssembleIs(d, h, d[..h.ps], k, m, e, d[..h.ps] + Padded(k, h.ps) + Padded(m, h.ps), out);
  }

  lemma {:induction false} ReassembledIff(d: Bytes, out: Bytes, ps: nat, k: Bytes, r: nat, m: Bytes, t: nat, e: Bytes)
    requires ps + |k| <= r && r + |m| <= t && t + |e| <= |d|
    requires k == d[ps..ps + |k|] && m == d[r..r + |m|] && e == d[t..t + |e|]
    requires out == d[..ps] + (k + Zeros(r - ps - |k|)) + ((m + Zeros(t - r - |m|)) + (e + Zeros(|d| - t - |e|)))
    ensures out == d <==> ZeroAfter(d[ps..r], |k|) && ZeroAfter(d[r..t], |m|) && ZeroAfter(d[t..], |e|)
  {
    var x, y, z := d[ps + |k|..r], d[r + |m|..t], d[t + |e|..];
    Regions(d, ps, k, r, m, t, e, x, y, z);
    FourPieces(d[..ps], k + x, m + y, e + z, k + Zeros(|x|), m + Zeros(|y|), e + Zeros(|z|));
    Cancel(k, x, Zeros(|x|));
    Cancel(m, y, Zeros(|y|));
    Cancel(e, z, Zeros(|z|));
  }

  lemma {:induction false} Regions(d: Bytes, ps: nat, k: Bytes, r: nat, m: Bytes, t: nat, e: Bytes, x: Bytes, y: Bytes, z: Bytes)
    requires ps + |k| <= r && r + |m| <= t && t + |e| <= |d|
    requires k == d[ps..ps + |k|] && m == d[r..r + |m|] && e == d[t..t + |e|]
    requires x == d[ps + |k|..r] && y == d[r + |m|..t] && z == d[t + |e|..]
    ensures d == d[..ps] + (k + x) + ((m + y) + (e + z))
    ensures d[ps..r][|k|..] == x && d[r..t][|m|..] == y && d[t..][|e|..] == z
  {
    assert k + x == d[ps..r] && m + y == d[r..t] && e + z == d[t..];
  }

  lemma {:induction false} Cancel(a: Bytes, b: Bytes, c: Bytes)
    ensures a + b == a + c <==> b == c
  {
    assert (a + b)[|a|..] == b && (a + c)[|a|..] == c;
  }

  lemma {:induction false} FourPieces(a: Bytes, b: Bytes, c: Bytes, e: Bytes, b1: Bytes, c1: Bytes, e1: Bytes)
    requires |b| == |b1| && |c| == |c1|
    ensures a + b + (c + e) == a + b1 + (c1 + e1) <==> b == b1 && c == c1 && e == e1
  {
    Pieces(a, b, c + e, b1, c1 + e1);
    assert [] + c + e == c + e && [] + c1 + e1 == c1 + e1;
    Pieces([], c, e, c1, e1);
  }

  lemma {:induction false} SamePage(d: Bytes)
    requires Image(d)
    ensures var h := ParseHdr(d).value;
            h.ks < 0x1_0000_0000 && h.rs < 0x1_0000_0000 && HeaderPage(d, h.ps, h.ks, h.rs) == d[..h.ps]
  {
    var h := ParseHdr(d).value;
    WordsFit(d[8..12]);
    WordsFit(d[16..20]);
    var p := d[..h.ps];
    assert SetSlice(p, 8, 12, p[8..12]) == p && SetSlice(p, 16, 20, p[16..20]) == p;
  }

  // ---------- The replace command ----------

  /** The contents of the first stream and the bytes behind it, which decompressobj keeps aside. */
  type Inflate = Bytes -> Option<(Bytes, Bytes)>

  /** zlib and gzip: what is compressed reads back with nothing behind it, and contents come out of bytes. */
  ghost predicate Codec(inflate: Inflate, deflate: Bytes -> Bytes) {
    (forall x :: inflate(deflate(x)) == Some((x, []))) &&
    forall s :: inflate(s).Some? && inflate(s).value.0 != [] ==> |inflate(s).value.1| < |s|
  }

  /** ramdisk_open: the entries and tail of an archive that writing reproduces. */
  function RamdiskOpen(rd: Bytes, inflate: Inflate): Option<(seq<Cpio.Item>, Bytes)> {
    match inflate(rd)
    case None => None
    case Some((cpio, _)) =>
      match Cpio.Parse(cpio)
      case Malformed => None
      case Parsed(items, tail) => if Cpio.Build(items, tail) == cpio then Some((items, tail)) else None
  }

  predicate Named(items: seq<Cpio.Item>, name: Bytes) {
    exists i :: 0 <= i < |items| && items[i].name == name
  }

  /** The data path of cmd_replace up to the written image. */
  function Rewrite(d: Bytes, name: Bytes, data: Bytes, inflate: Inflate, deflate: Bytes -> Bytes): Option<Bytes> {
    match Split(d)
    case None => None
    case Some(p) =>
      match RamdiskOpen(p.ramdisk, inflate)
      case None => None
      case Some((items, tail)) =>
        if !Named(items, name) then None
        else Assemble(d, p.kernel, deflate(Cpio.Build(Cpio.Replace(items, name, data), tail)), p.dt)
  }

  /** The first entry of a name, which the closing self-check looks at. */
  function FirstNamed(items: seq<Cpio.Item>, name: Bytes): Option<Bytes> {
    if items == [] then None else if items[0].name == name then Some(items[0].data) else FirstNamed(items[1..], name)
  }

  lemma {:induction false} ReplacedIsFirst(items: seq<Cpio.Item>, name: Bytes, data: Bytes)
    requires Named(items, name)
    ensures FirstNamed(Cpio.Refreshed(Cpio.Replace(items, name, data)), name) == Some(data)
    decreases |items|
  {
    var edited := Cpio.Refreshed(Cpio.Replace(items, name, data));
    if items[0].name != name {
      var i :| 0 <= i < |items| && items[i].name == name;
      assert items[1..][i - 1].name == name;
      ReplacedIsFirst(items[1..], name, data);
      assert edited[1..] == Cpio.Refreshed(Cpio.Replace(items[1..], name, data));
    }
  }

  /** The command opens a ramdisk exactly when it inflates to an archive that writing reproduces. */
  lemma {:induction false} OpensIff(rd: Bytes, inflate: Inflate, items: seq<Cpio.Item>, tail: Bytes)
    ensures RamdiskOpen(rd, inflate) == Some((items, tail)) <==>
              inflate(rd).Some? && Cpio.Parse(inflate(rd).value.0) == Cpio.Parsed(items, tail) &&
              inflate(rd).value.0 == Cpio.Emits(items) + tail
  {}

  lemma {:induction false} RewriteOpened(d: Bytes, name: Bytes, data: Bytes, inflate: Inflate, deflate: Bytes -> Bytes,
                                         p: Parts, items: seq<Cpio.Item>, tail: Bytes, rd: Bytes)
    requires Split(d) == Some(p) && RamdiskOpen(p.ramdisk, inflate) == Some((items, tail))
    requires rd == deflate(Cpio.Build(Cpio.Replace(items, name, data), tail))
    ensures Rewrite(d, name, data, inflate, deflate) == if Named(items, name) then Assemble(d, p.kernel, rd, p.dt) else None
  {}

  /** And once the ramdisk is open, it writes an image exactly when an entry has that name and the new
      ramdisk fits. */
  lemma {:induction false} RewriteIff(d: Bytes, name: Bytes, data: Bytes, inflate: Inflate, deflate: Bytes -> Bytes,
                                      h: Hdr, p: Parts, items: seq<Cpio.Item>, tail: Bytes, rd: Bytes)
    requires Image(d) && ParseHdr(d) == Some(h) && Split(d) == Some(p) && RamdiskOpen(p.ramdisk, inflate) == Some((items, tail))
    requires rd == deflate(Cpio.Build(Cpio.Replace(items, name, data), tail))
    ensures Rewrite(d, name, data, inflate, deflate).Some? <==>
              (exists i :: 0 <= i < |items| && items[i].name == name) && |p.kernel| < 0x1_0000_0000 && |rd| < 0x1_0000_0000 &&
              h.ps + PadTo(|p.kernel|, h.ps) + PadTo(|rd|, h.ps) + PadTo(|p.dt|, h.ps) <= |d|
  {
    RewriteOpened(d, name, data, inflate, deflate, p, items, tail, rd);
    AssembleFailsIff(d, h, p.kernel, rd, p.dt);
  }

  /** Whenever the command writes an image, that image has the same kernel, its ramdisk passes the guard,
      holds the new contents at every entry of that name and the old entries elsewhere, and the self-check
      at the end succeeds. The device tree comes back under the condition of the round trip, always where
      there is no second stage and the old image holds all of it. */
  lemma {:induction false} ReplaceIsSafe(d: Bytes, name: Bytes, data: Bytes,
                                         inflate: Inflate, deflate: Bytes -> Bytes, out: Bytes,
                                         h: Hdr, p: Parts, items: seq<Cpio.Item>, tail: Bytes)
    requires Codec(inflate, deflate) && Image(d) && |data| < 0x1_0000_0000
    requires ParseHdr(d) == Some(h) && Split(d) == Some(p) && RamdiskOpen(p.ramdisk, inflate) == Some((items, tail))
    requires Rewrite(d, name, data, inflate, deflate) == Some(out)
    ensures var edited := Cpio.Refreshed(Cpio.Replace(items, name, data));
            |out| == |d| && Split(out).Some? && Split(out).value.kernel == p.kernel &&
            RamdiskOpen(Split(out).value.ramdisk, inflate) == Some((edited, tail)) &&
            FirstNamed(edited, name) == Some(data)
    ensures var rd := Split(out).value.ramdisk;
            Room(d, h, p.kernel, rd) >= 0 && (Split(out).value.dt == p.dt <==> Found(d, h, p.kernel, rd, p.dt)) &&
            (h.ss == 0 && |p.dt| == h.dts ==> Split(out).value.dt == p.dt)
  {
    var rd := deflate(Cpio.Build(Cpio.Replace(items, name, data), tail));
    RoundTrip(d, p.kernel, rd, p.dt, out, h);
    OpensAgain(p.ramdisk, items, tail, name, data, inflate, deflate);
    ReplacedIsFirst(items, name, data);
  }

  /** The new ramdisk passes the guard and reads as the edited archive. */
  lemma {:induction false} OpensAgain(ramdisk: Bytes, items: seq<Cpio.Item>, tail: Bytes, name: Bytes, data: Bytes,
                                      inflate: Inflate, deflate: Bytes -> Bytes)
    requires Codec(inflate, deflate) && |data| < 0x1_0000_0000 && RamdiskOpen(ramdisk, inflate) == Some((items, tail))
    ensures RamdiskOpen(deflate(Cpio.Build(Cpio.Replace(items, name, data), tail)), inflate) ==
            Some((Cpio.Refreshed(Cpio.Replace(items, name, data)), tail))
  {
    Cpio.EditIsRead(inflate(ramdisk).value.0, items, tail, name, data);
    Cpio.EditIsSafe(inflate(ramdisk).value.0, name, data);
  }

  // ---------- What the kernel unpacks ----------

  /** A gzip file is a series of members (section 2.2 of RFC 1952), and the kernel unpacks all of them. */
  function Gunzip(rd: Bytes, inflate: Inflate): Bytes
    decreases |rd|
  {
    match inflate(rd)
    case Some((x, more)) => if |more| < |rd| then x + Gunzip(more, inflate) else []
    case None => []
  }

  lemma {:induction false} GunzipFirst(rd: Bytes, x: Bytes, more: Bytes, inflate: Inflate, deflate: Bytes -> Bytes)
    requires Codec(inflate, deflate) && inflate(rd) == Some((x, more)) && x != []
    ensures Gunzip(rd, inflate) == x + Gunzip(more, inflate)
  {}

  lemma {:induction false} GunzipOwn(x: Bytes, inflate: Inflate, deflate: Bytes -> Bytes)
    requires Codec(inflate, deflate)
    ensures Gunzip(deflate(x), inflate) == x
  {
    var rd := deflate(x);
    assert inflate(rd) == Some((x, []));
    if x != [] {
      GunzipFirst(rd, x, [], inflate, deflate);
    }
    assert Gunzip([], inflate) == [];
    assert x + [] == x;
  }

  lemma {:induction false} NamedIsSome(cpio: Bytes, name: Bytes)
    requires Cpio.Parse(cpio).Parsed? && Named(Cpio.Parse(cpio).items, name)
    ensures cpio != []
  {}

  /** The guard compares archives, not compressed bytes, so it does not see a second gzip stream. What the
      kernel unpacked before is the archive the command edits and whatever the streams behind the first
      one hold; what it unpacks afterwards is the edited archive alone. So the command does what it is for,
      the archive edited and the rest left as it was, if and only if there is nothing behind the first
      stream. */
  lemma {:induction false} OneStreamIff(d: Bytes, name: Bytes, data: Bytes,
                                        inflate: Inflate, deflate: Bytes -> Bytes, out: Bytes,
                                        p: Parts, items: seq<Cpio.Item>, tail: Bytes, cpio: Bytes, more: Bytes)
    requires Codec(inflate, deflate) && Image(d) && Split(d) == Some(p) && inflate(p.ramdisk) == Some((cpio, more))
    requires RamdiskOpen(p.ramdisk, inflate) == Some((items, tail))
    requires Rewrite(d, name, data, inflate, deflate) == Some(out)
    ensures Split(out).Some?
    ensures var edited := Cpio.Build(Cpio.Replace(items, name, data), tail);
            var unpacked := Gunzip(Split(out).value.ramdisk, inflate);
            Gunzip(p.ramdisk, inflate) == Cpio.Build(items, tail) + Gunzip(more, inflate) &&
            unpacked == edited &&
            (unpacked == edited + Gunzip(more, inflate) <==> Gunzip(more, inflate) == [])
  {
    var edited := Cpio.Build(Cpio.Replace(items, name, data), tail);
    RoundTrip(d, p.kernel, deflate(edited), p.dt, out, ParseHdr(d).value);
    GunzipOwn(edited, inflate, deflate);
    NamedIsSome(cpio, name);
    GunzipFirst(p.ramdisk, cpio, more, inflate, deflate);
    var rest := Gunzip(more, inflate);
    assert rest == [] ==> edited + rest == edited;
    assert |edited + rest| == |edited| + |rest|;
  }

  // ---------- A ramdisk of two streams ----------

  /** A stream ends where it says, whatever follows it. */
  ghost predicate Streams(inflate: Inflate, deflate: Bytes -> Bytes) {
    forall x: Bytes, more: Bytes :: inflate(deflate(x) + more) == Some((x, more))
  }

  /** Every archive the tool can edit, with any second stream behind it, fits an image of which the
      command keeps the first stream only. */
  lemma {:induction false} TwoStreams(cpio: Bytes, second: Bytes, name: Bytes, data: Bytes,
                                      inflate: Inflate, deflate: Bytes -> Bytes) returns (d: Bytes, out: Bytes)
    requires Codec(inflate, deflate) && Streams(inflate, deflate)
    requires Cpio.Reproduces(cpio) && Named(Cpio.Parse(cpio).items, name)
    requires var edited := Cpio.Build(Cpio.Replace(Cpio.Parse(cpio).items, name, data), Cpio.Parse(cpio).tail);
             |deflate(cpio) + deflate(second)| < 0x1_0000_0000 && |deflate(edited)| < 0x1_0000_0000
    ensures var edited := Cpio.Build(Cpio.Replace(Cpio.Parse(cpio).items, name, data), Cpio.Parse(cpio).tail);
            Split(d).Some? && RamdiskOpen(Split(d).value.ramdisk, inflate) == Some((Cpio.Parse(cpio).items, Cpio.Parse(cpio).tail)) &&
            Rewrite(d, name, data, inflate, deflate) == Some(out) && Split(out).Some? &&
            Gunzip(Split(d).value.ramdisk, inflate) == cpio + second &&
            Gunzip(Split(out).value.ramdisk, inflate) == edited
  {
    var items, tail := Cpio.Parse(cpio).items, Cpio.Parse(cpio).tail;
    var edited := Cpio.Build(Cpio.Replace(items, name, data), tail);
    d := WithRamdisk(deflate(cpio) + deflate(second), deflate(edited));
    out := Rewritten(d, Split(d).value, cpio, deflate(second), items, tail, name, data, inflate, deflate);
    GunzipOwn(second, inflate, deflate);
  }

  lemma {:induction false} Rewritten(d: Bytes, p: Parts, cpio: Bytes, more: Bytes, items: seq<Cpio.Item>, tail: Bytes,
                                     name: Bytes, data: Bytes, inflate: Inflate, deflate: Bytes -> Bytes) returns (out: Bytes)
    requires Codec(inflate, deflate) && Image(d) && Split(d) == Some(p) && inflate(p.ramdisk) == Some((cpio, more))
    requires Cpio.Parse(cpio) == Cpio.Parsed(items, tail) && Cpio.Build(items, tail) == cpio && Named(items, name)
    requires Assemble(d, p.kernel, deflate(Cpio.Build(Cpio.Replace(items, name, data), tail)), p.dt).Some?
    ensures RamdiskOpen(p.ramdisk, inflate) == Some((items, tail))
    ensures Rewrite(d, name, data, inflate, deflate) == Some(out) && Split(out).Some?
    ensures Gunzip(p.ramdisk, inflate) == cpio + Gunzip(more, inflate)
    ensures Gunzip(Split(out).value.ramdisk, inflate) == Cpio.Build(Cpio.Replace(items, name, data), tail)
  {
    assert RamdiskOpen(p.ramdisk, inflate) == Some((items, tail));
    out := Assemble(d, p.kernel, deflate(Cpio.Build(Cpio.Replace(items, name, data), tail)), p.dt).value;
    OneStreamIff(d, name, data, inflate, deflate, out, p, items, tail, cpio, more);
  }

  /** An image with a given ramdisk and nothing else, large enough for another ramdisk in its place. */
  lemma {:induction false} WithRamdisk(rd: Bytes, other: Bytes) returns (d: Bytes)
    requires |rd| < 0x1_0000_0000 && |other| < 0x1_0000_0000
    ensures Image(d) && Split(d).Some? && Split(d).value.ramdisk == rd && Split(d).value.dt == []
    ensures Split(d).value.kernel == [] && Assemble(d, [], other, []).Some?
  {
    var n := 2048 + PadTo(|rd|, 2048) + PadTo(|other|, 2048);
    var blank := Blank(0, 0, n);
    BlankHeader(0, 0, n);
    var h := ParseHdr(blank).value;
    SizesSet(blank, 2048, 0, |rd|, []);
    d := Assemble(blank, [], rd, []).value;
    RoundTrip(blank, [], rd, [], d, h);
    var page, area := AssembledShape(blank, [], rd, [], d, h);
    HeaderPageFields(blank, h, 0, |rd|, Padded([], 2048) + Padded(rd, 2048) + area);
    SizesSet(d, 2048, 0, |other|, []);
  }

  /** Stored, not compressed: every byte of a stream is announced by a 1, and a 0 ends it. */
  function Stored(x: Bytes): (s: Bytes)
    ensures |s| == 2 * |x| + 1
  {
    if x == [] then [0] else [1, x[0]] + Stored(x[1..])
  }

  function Unstored(s: Bytes): (r: Option<(Bytes, Bytes)>)
    ensures r.Some? ==> |r.value.1| < |s|
    decreases |s|
  {
    if s == [] then None
    else if s[0] == 0 then Some(([], s[1..]))
    else if |s| == 1 then None
    else
      match Unstored(s[2..])
      case None => None
      case Some((x, more)) => Some(([s[1]] + x, more))
  }

  lemma {:induction false} UnstoredByte(b: Byte, s: Bytes, x: Bytes, more: Bytes)
    requires Unstored(s) == Some((x, more))
    ensures Unstored([1, b] + s) == Some(([b] + x, more))
  {
    assert ([1, b] + s)[2..] == s;
  }

  lemma {:induction false} UnstoredEnd(more: Bytes)
    ensures Unstored([0] + more) == Some(([], more))
  {
    assert ([0] + more)[1..] == more;
  }

  lemma {:induction false} StoredByte(x: Bytes, more: Bytes)
    requires x != []
    ensures Stored(x) + more == [1, x[0]] + (Stored(x[1..]) + more) && [x[0]] + x[1..] == x
  {
    var a, b := [1, x[0]], Stored(x[1..]);
    assert (a + b) + more == a + (b + more);
  }

  lemma {:induction false} StoredReadsBack(x: Bytes, more: Bytes)
    ensures Unstored(Stored(x) + more) == Some((x, more))
    decreases |x|
  {
    if x == [] {
      UnstoredEnd(more);
    } else {
      StoredReadsBack(x[1..], more);
      UnstoredByte(x[0], Stored(x[1..]) + more, x[1..], more);
      StoredByte(x, more);
    }
  }

  /** So the laws asked of zlib and gzip can be kept. */
  lemma {:induction false} StoredIsCodec()
    ensures Codec(Unstored, Stored) && Streams(Unstored, Stored)
  {
    forall x: Bytes, more: Bytes ensures Unstored(Stored(x) + more) == Some((x, more)) {
      StoredReadsBack(x, more);
    }
    forall x ensures Unstored(Stored(x)) == Some((x, [])) {
      StoredReadsBack(x, []);
      assert Stored(x) + [] == Stored(x);
    }
  }

  lemma {:induction false} OneEntry(it: Cpio.Item)
    ensures Cpio.Build([it], []) == Cpio.Emit(it) && Cpio.Emit(it) + [] == Cpio.Emit(it)
  {
    Cpio.BuildCons([it], []);
    assert [it][1..] == [] && Cpio.Build([], []) == [] && Cpio.Emit(it) + [] == Cpio.Emit(it);
  }

  lemma {:induction false} ReadsBack(it: Cpio.Item)
    requires Cpio.Canonical(it) && it.name != Cpio.TRAILER
    ensures Cpio.Parse(Cpio.Emit(it)) == Cpio.Parsed([it], [])
  {
    Cpio.ParseEmitted(it, []);
    OneEntry(it);
    assert Cpio.Parse([]) == Cpio.Parsed([], []);
    assert [it] + [] == [it];
  }

  lemma {:induction false} SizeOf(it: Cpio.Item, data: Bytes)
    requires Cpio.Canonical(it) && |it.name| < 100 && |data| < 100
    ensures |Cpio.Emit(it.(data := data))| < 400
  {
    Cpio.RefreshedEntry(it, data);
    Cpio.EmitShape(it.(data := data, hdr := SetSlice(it.hdr, 54, 62, Hex8(|data|))));
  }

  /** The archive of one file, before and after its contents are replaced. */
  lemma {:induction false} SmallArchive(name: Bytes, was: Bytes, data: Bytes) returns (it: Cpio.Item, cpio: Bytes)
    requires |name| < 100 && |was| < 100 && |data| < 100 && name != Cpio.TRAILER
    ensures it.name == name && it.data == was && Cpio.Parse(cpio) == Cpio.Parsed([it], []) && Cpio.Build([it], []) == cpio
    ensures Cpio.Replace([it], name, data) == [it.(data := data)]
    ensures |cpio| < 400 && |Cpio.Build([it.(data := data)], [])| < 400
  {
    it := Cpio.Entry(name, was);
    cpio := Cpio.Emit(it);
    ReadsBack(it);
    OneEntry(it);
    OneEntry(it.(data := data));
    SizeOf(it, data);
    SizeOf(it, was);
    assert it.(data := was) == it;
  }

  /** One image, from nothing: its ramdisk holds an archive with the file "a" and, in a second stream, the
      byte 7. The guard accepts it, "a" gets new contents, and the 7 is gone. */
  lemma {:induction false} SecondStreamIsLost() returns (d: Bytes, out: Bytes, it: Cpio.Item)
    ensures it.name == [97] && it.data == []
    ensures Split(d).Some? && RamdiskOpen(Split(d).value.ramdisk, Unstored) == Some(([it], []))
    ensures Rewrite(d, [97], [5], Unstored, Stored) == Some(out) && Split(out).Some?
    ensures Gunzip(Split(d).value.ramdisk, Unstored) == Cpio.Build([it], []) + [7]
    ensures Gunzip(Split(out).value.ramdisk, Unstored) == Cpio.Build([it.(data := [5])], [])
  {
    var cpio;
    it, cpio := SmallArchive([97], [], [5]);
    assert [it][0].name == [97];
    StoredIsCodec();
    d, out := TwoStreams(cpio, [7], [97], [5], Unstored, Stored);
  }
}
