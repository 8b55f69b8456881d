/** The newc reader and writer of a1000_bootimg_tool.py, the guard between them, and the edit it protects. */
module Cpio {
  import opened Bytes
  import opened Options

  const MAGIC: Bytes := [48, 55, 48, 55, 48, 49]                          // 070701
  const TRAILER: Bytes := [84, 82, 65, 73, 76, 69, 82, 33, 33, 33]        // TRAILER!!!
  const HEADER := 110

  datatype Item = Item(hdr: Bytes, name: Bytes, data: Bytes)

  /** Malformed: a size field that int() rejects, or a negative one. */
  datatype Parsed = Malformed | Parsed(items: seq<Item>, tail: Bytes)

  function Align4(n: nat): (m: nat)
    ensures n <= m < n + 4 && m % 4 == 0
  {
    (n + 3) / 4 * 4
  }

  // ---------- Reading ----------

  predicate AtHeader(s: Bytes) {
    HEADER <= |s| && s[..6] == MAGIC
  }

  function NameSize(hdr: Bytes): Option<int> { HexInt(Slice(hdr, 94, 102)) }

  function FileSize(hdr: Bytes): Option<int> { HexInt(Slice(hdr, 54, 62)) }

  predicate Readable(s: Bytes) {
    AtHeader(s) && (match NameSize(s[..HEADER]) case Some(n) => n >= 0 case None => false) &&
    (match FileSize(s[..HEADER]) case Some(n) => n >= 0 case None => false)
  }

  function DataStart(nameSize: nat): nat { Align4(HEADER + nameSize) }

  function EntryEnd(nameSize: nat, fileSize: nat): nat { Align4(DataStart(nameSize) + fileSize) }

  /** The first entry of an archive, and what follows it. */
  function FirstItem(s: Bytes): Item
    requires Readable(s)
  {
    var nsz, fsz := NameSize(s[..HEADER]).value, FileSize(s[..HEADER]).value;
    Item(s[..HEADER], Slice(s, HEADER, HEADER + nsz - 1), Slice(s, DataStart(nsz), DataStart(nsz) + fsz))
  }

  function Rest(s: Bytes): (r: Bytes)
    requires Readable(s)
    ensures |r| < |s|
  {
    From(s, EntryEnd(NameSize(s[..HEADER]).value, FileSize(s[..HEADER]).value))
  }

  function Prepend(item: Item, p: Parsed): Parsed {
    if p.Malformed? then p else Parsed([item] + p.items, p.tail)
  }

  /** cpio_parse on the bytes from one entry on; entries begin at multiples of four. */
  function Parse(s: Bytes): Parsed
    decreases |s|
  {
    if !AtHeader(s) then Parsed([], s)
    else if !Readable(s) then Malformed
    else if FirstItem(s).name == TRAILER then Parsed([FirstItem(s)], Rest(s))
    else Prepend(FirstItem(s), Parse(Rest(s)))
  }

  // ---------- Writing ----------

  /** The header with both sizes rewritten. */
  function Header(it: Item): Bytes {
    SetSlice(SetSlice(it.hdr, 54, 62, Hex8(|it.data|)), 94, 102, Hex8(|it.name| + 1))
  }

  function Pad(s: Bytes): (t: Bytes)
    ensures |t| == Align4(|s|)
  {
    s + Zeros(Align4(|s|) - |s|)
  }

  function Emit(it: Item): (s: Bytes)
    ensures |s| % 4 == 0
  {
    Pad(Pad(Header(it) + it.name + [0]) + it.data)
  }

  function Emits(items: seq<Item>): Bytes
    decreases |items|
  {
    if items == [] then [] else Emit(items[0]) + Emits(items[1..])
  }

  function Build(items: seq<Item>, tail: Bytes): Bytes { Emits(items) + tail }

  /** The test of ramdisk_open. */
  predicate Reproduces(s: Bytes) {
    match Parse(s)
    case Malformed => false
    case Parsed(items, tail) => Build(items, tail) == s
  }

  // ---------- One entry, there and back ----------

  /** An entry as the writer leaves it. */
  ghost predicate Canonical(it: Item) {
    |it.hdr| == HEADER && it.hdr[..6] == MAGIC && |it.data| < 0x1_0000_0000 && |it.name| + 1 < 0x1_0000_0000 &&
    Header(it) == it.hdr
  }

  lemma {:induction false} CanonicalSizes(it: Item)
    requires Canonical(it)
    ensures NameSize(it.hdr) == Some(|it.name| + 1) && FileSize(it.hdr) == Some(|it.data|)
  {
    HexRoundTrip(|it.data|);
    HexRoundTrip(|it.name| + 1);
    var h := SetSlice(it.hdr, 54, 62, Hex8(|it.data|));
    var h' := SetSlice(h, 94, 102, Hex8(|it.name| + 1));
    assert h'[54..62] == h'[..94][54..62] == h[..94][54..62] == h[54..62];
  }

  /** There is a canonical entry of any name and contents. */
  lemma {:induction false} Entry(name: Bytes, data: Bytes) returns (it: Item)
    requires |data| < 0x1_0000_0000 && |name| + 1 < 0x1_0000_0000
    ensures Canonical(it) && it.name == name && it.data == data
  {
    HexRoundTrip(|data|);
    HexRoundTrip(|name| + 1);
    var raw := MAGIC + Zeros(HEADER - 6);
    var h := SetSlice(raw, 54, 62, Hex8(|data|));
    var h' := SetSlice(h, 94, 102, Hex8(|name| + 1));
    it := Item(h', name, data);
    assert h'[54..62] == h'[..94][54..62] == h[..94][54..62] == h[54..62];
    assert h'[..6] == h'[..94][..6] == h[..94][..6] == h[..54][..6] == raw[..54][..6] == MAGIC;
    assert SetSlice(h', 54, 62, h'[54..62]) == h' && SetSlice(h', 94, 102, h'[94..102]) == h';
  }

  lemma {:induction false} EmitShape(it: Item)
    requires |Header(it)| == HEADER
    ensures var p := DataStart(|it.name| + 1);
            var s := Emit(it);
            |s| == EntryEnd(|it.name| + 1, |it.data|) && s[..HEADER] == Header(it) &&
            s[HEADER..HEADER + |it.name|] == it.name && s[p..p + |it.data|] == it.data
  {
    var a := Header(it) + it.name + [0];
    var b := Pad(a) + it.data;
    var s := Emit(it);
    assert |a| == HEADER + |it.name| + 1 && |Pad(a)| == DataStart(|it.name| + 1);
    assert s[..|a|] == a;
    assert s[HEADER..HEADER + |it.name|] == a[HEADER..HEADER + |it.name|];
    assert s[..HEADER] == a[..HEADER];
    assert s[|Pad(a)|..|b|] == it.data;
  }

  /** The new ASCII format (newc): a header of 110 bytes with the size of the contents in its seventh field of
      eight digits and that of the name with its final zero in its twelfth, */
  lemma {:induction false} HeaderFields(it: Item)
    requires Canonical(it)
    ensures |it.hdr| == 110 && it.hdr[..6] == [48, 55, 48, 55, 48, 49]
    ensures it.hdr[54..62] == Hex8(|it.data|) && it.hdr[94..102] == Hex8(|it.name| + 1)
  {
    HexRoundTrip(|it.data|);
    HexRoundTrip(|it.name| + 1);
    var h := SetSlice(it.hdr, 54, 62, Hex8(|it.data|));
    var h' := SetSlice(h, 94, 102, Hex8(|it.name| + 1));
    assert h'[54..62] == h'[..94][54..62] == h[..94][54..62] == h[54..62];
  }

  /** the name, and the contents, */
  lemma {:induction false} EntryFormat(it: Item, s: Bytes, d: nat)
    requires Canonical(it) && s == Emit(it) && d == (110 + |it.name| + 1 + 3) / 4 * 4
    ensures |s| == (d + |it.data| + 3) / 4 * 4 && s[..110] == it.hdr
    ensures s[110..110 + |it.name|] == it.name && s[d..d + |it.data|] == it.data
  {
    EmitShape(it);
  }

  /** each padded with zeros to a multiple of four. */
  lemma {:induction false} EntryPadding(it: Item, s: Bytes, d: nat, i: nat)
    requires Canonical(it) && s == Emit(it) && d == (110 + |it.name| + 1 + 3) / 4 * 4 && i < |s|
    ensures 110 + |it.name| <= i < d || d + |it.data| <= i ==> s[i] == 0
  {
    EmitShape(it);
    EmitZeros(it);
  }

  lemma {:induction false} EmitZeros(it: Item)
    requires |Header(it)| == 110
    ensures var s, d := Emit(it), DataStart(|it.name| + 1);
            d + |it.data| <= |s| &&
            (forall i :: 110 + |it.name| <= i < d ==> s[i] == 0) && (forall i :: d + |it.data| <= i < |s| ==> s[i] == 0)
  {
    var a := Header(it) + it.name + [0];
    var p := Pad(a);
    assert |a| == 110 + |it.name| + 1 && |p| == DataStart(|it.name| + 1);
    assert forall i :: |a| <= i < |p| ==> p[i] == 0;
    assert a[110 + |it.name|] == 0 && p[110 + |it.name|] == 0;
    assert Emit(it) == p + it.data + Zeros(|Emit(it)| - |p + it.data|);
  }

  /** Reading what was written gives the entry back and leaves the rest. */
  lemma {:induction false} ParseEmitted(it: Item, r: Bytes)
    requires Canonical(it)
    ensures var s := Emit(it) + r;
            Readable(s) && FirstItem(s) == it && Rest(s) == r
  {
    var s := Emit(it) + r;
    EmitShape(it);
    CanonicalSizes(it);
    assert s[..HEADER] == it.hdr;
    assert s[..6] == it.hdr[..6];
    assert s[HEADER..HEADER + |it.name|] == Emit(it)[HEADER..HEADER + |it.name|];
    var p := DataStart(|it.name| + 1);
    assert s[p..p + |it.data|] == Emit(it)[p..p + |it.data|];
    assert s[|Emit(it)|..] == r;
  }

  lemma {:induction false} FirstItemSizes(s: Bytes)
    requires Readable(s)
    ensures |FirstItem(s).data| < 0x1_0000_0000 && |FirstItem(s).name| + 1 < 0x1_0000_0000
    ensures |FirstItem(s).hdr| == HEADER && FirstItem(s).hdr[..6] == MAGIC
  {
    HexIntBound(Slice(s[..HEADER], 54, 62));
    HexIntBound(Slice(s[..HEADER], 94, 102));
    assert s[..HEADER][..6] == s[..6];
  }

  /** What the guard lets through begins with a canonical entry. */
  lemma {:induction false} AcceptedEntry(s: Bytes, it: Item, rest: Bytes)
    requires Readable(s) && it == FirstItem(s) && s == Emit(it) + rest
    ensures Canonical(it) && rest == Rest(s)
  {
    FirstItemSizes(s);
    HexRoundTrip(|it.data|);
    HexRoundTrip(|it.name| + 1);
    EmitShape(it);
    assert s[..HEADER] == Emit(it)[..HEADER];
    CanonicalSizes(it);
    assert s[|Emit(it)|..] == rest;
  }

  // ---------- Whole archives ----------

  /** The guard makes the first entry canonical and hands the same question on to the rest. */
  lemma {:induction false} AcceptedHead(s: Bytes, items: seq<Item>, tail: Bytes)
    requires Parse(s) == Parsed(items, tail) && Build(items, tail) == s && items != []
    ensures Readable(s) && FirstItem(s) == items[0] && Rest(s) == Build(items[1..], tail) && Canonical(items[0])
    ensures if items[0].name == TRAILER then items[1..] == [] && Rest(s) == tail
            else Parse(Rest(s)) == Parsed(items[1..], tail)
  {
    AcceptedSplit(s, items, tail);
    AcceptedEntry(s, items[0], Build(items[1..], tail));
  }

  lemma {:induction false} AcceptedSplit(s: Bytes, items: seq<Item>, tail: Bytes)
    requires Parse(s) == Parsed(items, tail) && Build(items, tail) == s && items != []
    ensures Readable(s) && FirstItem(s) == items[0] && s == Emit(items[0]) + Build(items[1..], tail)
    ensures if items[0].name == TRAILER then items[1..] == [] && Rest(s) == tail
            else Parse(Rest(s)) == Parsed(items[1..], tail)
  {
    BuildCons(items, tail);
    ParseCons(s, items, tail);
  }

  lemma {:induction false} BuildCons(items: seq<Item>, tail: Bytes)
    requires items != []
    ensures Build(items, tail) == Emit(items[0]) + Build(items[1..], tail)
  {
    assert (Emit(items[0]) + Emits(items[1..])) + tail == Emit(items[0]) + (Emits(items[1..]) + tail);
  }

  lemma {:induction false} ParseCons(s: Bytes, items: seq<Item>, tail: Bytes)
    requires Parse(s) == Parsed(items, tail) && items != []
    ensures Readable(s) && FirstItem(s) == items[0]
    ensures if items[0].name == TRAILER then items[1..] == [] && Rest(s) == tail
            else Parse(Rest(s)) == Parsed(items[1..], tail)
  {
    if FirstItem(s).name != TRAILER {
      var p := Parse(Rest(s));
      assert items == [FirstItem(s)] + p.items;
    }
  }

  // ---------- The edit ----------

  /** What cmd_replace does to the list: new contents at every entry of that name. */
  function Replace(items: seq<Item>, name: Bytes, data: Bytes): (r: seq<Item>)
    ensures |r| == |items|
    ensures forall i :: 0 <= i < |items| ==>
              r[i] == if items[i].name == name then items[i].(data := data) else items[i]
    decreases |items|
  {
    if items == [] then []
    else [if items[0].name == name then items[0].(data := data) else items[0]] + Replace(items[1..], name, data)
  }

  /** The list as it reads after writing: the data sizes in the headers are up to date. */
  function Refreshed(items: seq<Item>): (r: seq<Item>)
    ensures |r| == |items|
    ensures forall i :: 0 <= i < |items| ==> r[i] == items[i].(hdr := SetSlice(items[i].hdr, 54, 62, Hex8(|items[i].data|)))
    decreases |items|
  {
    if items == [] then []
    else [items[0].(hdr := SetSlice(items[0].hdr, 54, 62, Hex8(|items[0].data|)))] + Refreshed(items[1..])
  }

  lemma {:induction false} RefreshedEntry(it: Item, data: Bytes)
    requires Canonical(it) && |data| < 0x1_0000_0000
    ensures var changed := it.(data := data);
            var it' := changed.(hdr := SetSlice(it.hdr, 54, 62, Hex8(|data|)));
            Canonical(it') && Emit(it') == Emit(changed) && it'.hdr[..54] == it.hdr[..54] && it'.hdr[62..] == it.hdr[62..]
  {
    HexRoundTrip(|data|);
    HexRoundTrip(|it.data|);
    HexRoundTrip(|it.name| + 1);
    var changed := it.(data := data);
    var h := SetSlice(it.hdr, 54, 62, Hex8(|data|));
    NameSizeStays(it, data);
    assert SetSlice(h, 54, 62, Hex8(|data|)) == h;
    assert h[..6] == h[..54][..6] == it.hdr[..54][..6] == MAGIC;
  }

  lemma {:induction false} NameSizeStays(it: Item, data: Bytes)
    requires Canonical(it) && |data| < 0x1_0000_0000
    ensures var h := SetSlice(it.hdr, 54, 62, Hex8(|data|));
            |h| == HEADER && SetSlice(h, 94, 102, Hex8(|it.name| + 1)) == h
  {
    HexRoundTrip(|data|);
    HexRoundTrip(|it.data|);
    HexRoundTrip(|it.name| + 1);
    var h := SetSlice(it.hdr, 54, 62, Hex8(|data|));
    assert it.hdr[94..102] == Hex8(|it.name| + 1);
    assert h[62..] == it.hdr[62..];
    assert h[94..102] == h[62..][32..40] == it.hdr[62..][32..40] == it.hdr[94..102];
    assert SetSlice(h, 94, 102, h[94..102]) == h;
  }

  lemma {:induction false} RefreshedWritesTheSame(s: Bytes, items: seq<Item>, tail: Bytes, name: Bytes, data: Bytes)
    requires Parse(s) == Parsed(items, tail) && Build(items, tail) == s && |data| < 0x1_0000_0000
    ensures Emits(Refreshed(Replace(items, name, data))) == Emits(Replace(items, name, data))
    decreases |items|
  {
    if items != [] {
      AcceptedHead(s, items, tail);
      var it := items[0];
      RefreshedEntry(it, if it.name == name then data else it.data);
      if it.name != TRAILER {
        RefreshedWritesTheSame(Rest(s), items[1..], tail, name, data);
      }
    }
  }

  /** The guard is strong enough for the edit: an archive that it accepts, rewritten with any contents
      under 4 GiB, reads back with the same names, the same tail and the same header bytes outside the
      size fields, the new contents at the entries of that name and the old ones elsewhere. */
  lemma {:induction false} EditIsRead(s: Bytes, items: seq<Item>, tail: Bytes, name: Bytes, data: Bytes)
    requires Parse(s) == Parsed(items, tail) && Build(items, tail) == s && |data| < 0x1_0000_0000
    ensures var edited := Replace(items, name, data);
            Parse(Build(edited, tail)) == Parsed(Refreshed(edited), tail)
    decreases |items|
  {
    if items == [] {
    } else {
      AcceptedHead(s, items, tail);
      if items[0].name != TRAILER {
        EditIsRead(Rest(s), items[1..], tail, name, data);
      }
      EditedHead(items, tail, name, data);
    }
  }

  lemma {:induction false} ParseOne(it: Item, r: Bytes, items: seq<Item>, tail: Bytes)
    requires Canonical(it)
    requires if it.name == TRAILER then items == [] && r == tail else Parse(r) == Parsed(items, tail)
    ensures Parse(Emit(it) + r) == Parsed([it] + items, tail)
  {
    ParseEmitted(it, r);
    assert items == [] ==> [it] + items == [it];
  }

  /** An archive ends behind the entry named TRAILER!!!, and with no other. */
  lemma {:induction false} TrailerEnds(it: Item, r: Bytes)
    requires Canonical(it)
    ensures it.name == [84, 82, 65, 73, 76, 69, 82, 33, 33, 33] ==> Parse(Emit(it) + r) == Parsed([it], r)
    ensures it.name != [84, 82, 65, 73, 76, 69, 82, 33, 33, 33] ==>
              match Parse(r)
              case Malformed => Parse(Emit(it) + r) == Malformed
              case Parsed(items, tail) => Parse(Emit(it) + r) == Parsed([it] + items, tail)
  {
    ParseEmitted(it, r);
  }

  lemma {:induction false} EditedHead(items: seq<Item>, tail: Bytes, name: Bytes, data: Bytes)
    requires items != [] && Canonical(items[0]) && |data| < 0x1_0000_0000
    requires var rest := Replace(items[1..], name, data);
             if items[0].name == TRAILER then items[1..] == [] else Parse(Build(rest, tail)) == Parsed(Refreshed(rest), tail)
    ensures var edited := Replace(items, name, data);
            Parse(Build(edited, tail)) == Parsed(Refreshed(edited), tail)
  {
    var edited, rest := Replace(items, name, data), Replace(items[1..], name, data);
    var it, it' := items[0], Refreshed(edited)[0];
    RefreshedEntry(it, if it.name == name then data else it.data);
    assert edited[1..] == rest && Refreshed(edited) == [it'] + Refreshed(rest);
    ParseOne(it', Build(rest, tail), Refreshed(rest), tail);
    BuildCons(edited, tail);
  }

  /** And so the guard accepts the result. */
  lemma {:induction false} EditIsSafe(s: Bytes, name: Bytes, data: Bytes)
    requires Reproduces(s) && |data| < 0x1_0000_0000
    ensures Reproduces(Build(Replace(Parse(s).items, name, data), Parse(s).tail))
  {
    EditIsRead(s, Parse(s).items, Parse(s).tail, name, data);
    RefreshedWritesTheSame(s, Parse(s).items, Parse(s).tail, name, data);
  }

  // ---------- The loops of the source ----------

  function PrependAll(items: seq<Item>, p: Parsed): Parsed {
    if p.Malformed? then p else Parsed(items + p.items, p.tail)
  }

  lemma {:induction false} ClampTwice(q: nat, i: nat, n: nat)
    ensures Clamp(q, n) + Clamp(i, n - Clamp(q, n)) == Clamp(q + i, n)
  {}

  lemma {:induction false} DropThenSlice(s: Bytes, a: nat, b: nat, c: nat)
    requires a <= |s| && b <= c <= |s| - a
    ensures s[a..][b..c] == s[a + b..a + c] && s[a..][b..] == s[a + b..]
  {}

  lemma {:induction false} SliceFrom(s: Bytes, q: nat, i: nat, j: int)
    ensures Slice(From(s, q), i, j) == Slice(s, q + i, q + j)
    ensures From(From(s, q), i) == From(s, q + i)
  {
    var n, a := |s|, Clamp(q, |s|);
    ClampTwice(q, i, n);
    if j > i {
      ClampTwice(q, j, n);
      DropThenSlice(s, a, Clamp(i, n - a), Clamp(j, n - a));
    } else {
      DropThenSlice(s, a, Clamp(i, n - a), n - a);
    }
  }

  lemma {:induction false} AlignShift(q: nat, n: nat)
    requires q % 4 == 0
    ensures Align4(q + n) == q + Align4(n)
  {}

  lemma {:induction false} EntryIs(t: Bytes, hdr: Bytes, nsz: nat, fsz: nat, d: nat, e: nat)
    requires Readable(t) && hdr == t[..HEADER] && NameSize(hdr) == Some(nsz) && FileSize(hdr) == Some(fsz)
    requires d == DataStart(nsz) && e == EntryEnd(nsz, fsz)
    ensures FirstItem(t) == Item(hdr, Slice(t, HEADER, HEADER + nsz - 1), Slice(t, d, d + fsz))
    ensures Rest(t) == From(t, e)
  {}

  lemma {:induction false} OffsetsAt(q: nat, nsz: nat, fsz: nat)
    requires q % 4 == 0
    ensures Align4(q + HEADER + nsz) == q + DataStart(nsz)
    ensures Align4(q + DataStart(nsz) + fsz) == q + EntryEnd(nsz, fsz)
  {
    AlignShift(q, HEADER + nsz);
    AlignShift(q, DataStart(nsz) + fsz);
  }

  lemma {:induction false} SlicesAt(s: Bytes, q: nat, t: Bytes, nsz: nat, fsz: nat, d: nat, e: nat, p: nat, end: nat)
    requires t == From(s, q) && p == q + d && end == q + e
    ensures Slice(t, HEADER, HEADER + nsz - 1) == Slice(s, q + HEADER, q + HEADER + nsz - 1)
    ensures Slice(t, d, d + fsz) == Slice(s, p, p + fsz) && From(t, e) == From(s, end)
  {
    SliceFrom(s, q, HEADER, HEADER + nsz - 1);
    SliceFrom(s, q, d, d + fsz);
    SliceFrom(s, q, e, 0);
  }

  lemma {:induction false} ReadEntry(s: Bytes, q: nat, t: Bytes, hdr: Bytes, nsz: nat, fsz: nat, p: nat, end: nat)
    requires q % 4 == 0 && t == From(s, q) && Readable(t) && hdr == t[..HEADER]
    requires NameSize(hdr) == Some(nsz) && FileSize(hdr) == Some(fsz)
    requires p == q + DataStart(nsz) && end == q + EntryEnd(nsz, fsz)
    ensures FirstItem(t) == Item(hdr, Slice(s, q + HEADER, q + HEADER + nsz - 1), Slice(s, p, p + fsz))
    ensures Rest(t) == From(s, end)
  {
    var d, e := DataStart(nsz), EntryEnd(nsz, fsz);
    EntryIs(t, hdr, nsz, fsz, d, e);
    SlicesAt(s, q, t, nsz, fsz, d, e, p, end);
  }

  predicate GoodSize(n: Option<int>) { n.Some? && n.value >= 0 }

  lemma {:induction false} ReadGood(s: Bytes, q: nat, t: Bytes, hdr: Bytes, nsz: nat, fsz: nat, p: nat, end: nat, it: Item)
    requires q % 4 == 0 && t == From(s, q) && Readable(t) && hdr == t[..HEADER]
    requires NameSize(hdr) == Some(nsz) && FileSize(hdr) == Some(fsz)
    requires p == Align4(q + HEADER + nsz) && end == Align4(p + fsz)
    requires it == Item(hdr, Slice(s, q + HEADER, q + HEADER + nsz - 1), Slice(s, p, p + fsz))
    ensures end > q && Parse(t) == Prepend(it, After(it, From(s, end)))
  {
    OffsetsAt(q, nsz, fsz);
    ReadEntry(s, q, t, hdr, nsz, fsz, p, end);
    ParseEntry(t, it, From(s, end));
  }

  lemma {:induction false} HeaderAt(s: Bytes, q: nat, t: Bytes)
    requires q + HEADER <= |s| && t == From(s, q)
    ensures AtHeader(t) <==> Slice(s, q, q + 6) == MAGIC
    ensures Slice(s, q, q + HEADER) == t[..HEADER]
  {
    SliceFrom(s, q, 0, 6);
    SliceFrom(s, q, 0, HEADER);
    assert t[..6] == Slice(t, 0, 6);
  }

  lemma {:induction false} ReadBad(t: Bytes, hdr: Bytes)
    requires HEADER <= |t| && hdr == t[..HEADER] && AtHeader(t)
    ensures Readable(t) <==> GoodSize(NameSize(hdr)) && GoodSize(FileSize(hdr))
    ensures !Readable(t) ==> Parse(t) == Malformed
  {}

  function After(it: Item, rest: Bytes): Parsed {
    if it.name == TRAILER then Parsed([], rest) else Parse(rest)
  }

  lemma {:induction false} PrependMore(items: seq<Item>, it: Item, p: Parsed)
    ensures PrependAll(items, Prepend(it, p)) == PrependAll(items + [it], p)
  {
    if p.Parsed? {
      assert items + ([it] + p.items) == (items + [it]) + p.items;
    }
  }

  lemma {:induction false} ParseEntry(t: Bytes, it: Item, rest: Bytes)
    requires Readable(t) && it == FirstItem(t) && rest == Rest(t)
    ensures Parse(t) == Prepend(it, After(it, rest))
  {}

  /** cpio_parse. */
  method CpioParse(buf: Bytes) returns (r: Parsed)
    ensures r == Parse(buf)
  {
    var items: seq<Item>, q: nat, last := [], 0, false;
    while !last && q + HEADER <= |buf|
      invariant q % 4 == 0
      invariant Parse(buf) == PrependAll(items, if last then Parsed([], From(buf, q)) else Parse(From(buf, q)))
      decreases !last, |buf| - q
    {
      ghost var t := From(buf, q);
      HeaderAt(buf, q, t);
      if Slice(buf, q, q + 6) != MAGIC {
        break;
      }
      var hdr := Slice(buf, q, q + HEADER);
      var nsz, fsz := NameSize(hdr), FileSize(hdr);
      ReadBad(t, hdr);
      if !GoodSize(nsz) || !GoodSize(fsz) {
        return Malformed;
      }
      var nameSize: nat, fileSize: nat := nsz.value, fsz.value;
      assert nsz == Some(nameSize) && fsz == Some(fileSize) && Readable(t);
      var name := Slice(buf, q + HEADER, q + HEADER + nameSize - 1);
      var p := Align4(q + HEADER + nameSize);
      var end := Align4(p + fileSize);
      var item := Item(hdr, name, Slice(buf, p, p + fileSize));
      ReadGood(buf, q, t, hdr, nameSize, fileSize, p, end, item);
      PrependMore(items, item, After(item, From(buf, end)));
      items := items + [item];
      q := end;
      last := name == TRAILER;
    }
    r := Parsed(items, From(buf, q));
  }

  lemma {:induction false} EmitsAligned(items: seq<Item>)
    ensures |Emits(items)| % 4 == 0
    decreases |items|
  {
    if items != [] {
      EmitsAligned(items[1..]);
      SumOfFours(|Emit(items[0])|, |Emits(items[1..])|);
    }
  }

  lemma {:induction false} SumOfFours(a: nat, b: nat)
    requires a % 4 == 0 && b % 4 == 0
    ensures (a + b) % 4 == 0
  {}

  lemma {:induction false} EmitsConcat(s: seq<Item>, t: seq<Item>)
    ensures Emits(s + t) == Emits(s) + Emits(t)
    decreases |s|
  {
    if s == [] {
      assert s + t == t;
    } else {
      assert (s + t)[1..] == s[1..] + t;
      EmitsConcat(s[1..], t);
      assert Emit(s[0]) + (Emits(s[1..]) + Emits(t)) == (Emit(s[0]) + Emits(s[1..])) + Emits(t);
    }
  }

  lemma {:induction false} EmitsSnoc(items: seq<Item>, i: nat)
    requires i < |items|
    ensures Emits(items[..i + 1]) == Emits(items[..i]) + Emit(items[i])
  {
    EmitsConcat(items[..i], [items[i]]);
    assert items[..i + 1] == items[..i] + [items[i]];
    EmitsOne(items[i]);
  }

  lemma {:induction false} EmitsOne(it: Item)
    ensures Emits([it]) == Emit(it)
  {
    assert [it][1..] == [];
    assert Emit(it) + [] == Emit(it);
  }

  /** The loop that adds zero bytes up to a multiple of four. */
  method PadOut(out: Bytes) returns (r: Bytes)
    ensures r == Pad(out)
  {
    r := out;
    while |r| % 4 != 0
      invariant |out| <= |r| <= Align4(|out|) && r == out + Zeros(|r| - |out|)
      decreases Align4(|out|) - |r|
    {
      assert Zeros(|r| + 1 - |out|) == Zeros(|r| - |out|) + [0];
      r := r + [0];
    }
  }

  lemma {:induction false} PadAfter(s: Bytes, t: Bytes)
    requires |s| % 4 == 0
    ensures Pad(s + t) == s + Pad(t)
  {
    assert Align4(|s| + |t|) == |s| + Align4(|t|);
    assert s + t + Zeros(Align4(|t|) - |t|) == s + (t + Zeros(Align4(|t|) - |t|));
  }

  /** The body of the loop of cpio_build. */
  method AppendEntry(out: Bytes, it: Item) returns (r: Bytes)
    requires |out| % 4 == 0
    ensures r == out + Emit(it)
  {
    var h := SetSlice(it.hdr, 54, 62, Hex8(|it.data|));
    h := SetSlice(h, 94, 102, Hex8(|it.name| + 1));
    var head := h + it.name + [0];
    r := PadOut(out + head);
    PadAfter(out, head);
    assert out + Pad(head) + it.data == out + (Pad(head) + it.data);
    PadAfter(out, Pad(head) + it.data);
    r := PadOut(r + it.data);
  }

  /** cpio_build. */
  method CpioBuild(items: seq<Item>, tail: Bytes) returns (r: Bytes)
    ensures r == Build(items, tail)
  {
    var out: Bytes := [];
    for i := 0 to |items|
      invariant out == Emits(items[..i])
    {
      EmitsAligned(items[..i]);
      EmitsSnoc(items, i);
      out := AppendEntry(out, items[i]);
    }
    assert items[..|items|] == items;
    r := out + tail;
  }

  /** The loop of cmd_replace over the entries, which changes them in place. */
  method ReplaceEntries(items: seq<Item>, name: Bytes, data: Bytes) returns (r: seq<Item>, hit: bool)
    ensures r == Replace(items, name, data)
    ensures hit <==> exists it :: it in items && it.name == name
  {
    r, hit := items, false;
    for i := 0 to |items|
      invariant |r| == |items| && r[i..] == items[i..]
      invariant forall j :: 0 <= j < i ==> r[j] == if items[j].name == name then items[j].(data := data) else items[j]
      invariant hit <==> exists j :: 0 <= j < i && items[j].name == name
    {
      assert r[i] == items[i];
      if r[i].name == name {
        r := r[i := r[i].(data := data)];
        hit := true;
      }
    }
  }
}
