/** Requests that copy strings for the vendor library (ril_service.cpp): under any allocation failure each
    gets exactly one answer, and what was allocated is freed. */
module RilLedger {
  import opened Options

  datatype Ptr = Null | At(addr: nat) | Literal(text: string)

  /** A block of the heap, with the place in the request that it was copied for. */
  datatype Block = Block(text: string, row: nat, column: nat)

  datatype Errno = NO_MEMORY | INVALID_ARGUMENTS

  /** A structure as the vendor library reads it through its pointers. */
  datatype Sent = Sent(strings: seq<Option<string>>, mvno: Option<string>)

  /** What becomes of a request: it is handed to the vendor library or answered with an error. */
  datatype Event = OnRequest(rows: seq<Sent>) | Response(error: Errno)

  datatype MvnoType = IMSI | GID | SPN | NONE | Unknown(value: int)

  datatype Profile = Profile(apn: string, protocol: string, roamingProtocol: string, user: string, password: string,
                             mvnoMatchData: string, mvnoType: MvnoType)

  // ---------- What a request must come to ----------

  /** Copying from the j-th string on takes one allocation for each that is not empty; fails says which
      allocations of the process do not succeed. The number of allocations afterwards, unless one failed. */
  function CopyRow(fails: nat -> bool, t: nat, row: seq<string>, j: nat): Option<nat>
    requires j <= |row|
    decreases |row| - j, row
  {
    if j == |row| then Some(t)
    else if row[j] == "" then CopyRow(fails, t, row, j + 1)
    else if fails(t) then None
    else CopyRow(fails, t + 1, row, j + 1)
  }

  datatype Verdict = Passed(t: nat) | Refused(error: Errno)

  /** The rows from the i-th on; a row whose MVNO type has no name is refused after its strings were copied. */
  function CopyRows(fails: nat -> bool, t: nat, rows: seq<seq<string>>, named: seq<bool>, i: nat): Verdict
    requires i <= |rows| == |named|
    decreases |rows| - i, rows
  {
    if i == |rows| then Passed(t)
    else
      match CopyRow(fails, t, rows[i], 0)
      case None => Refused(NO_MEMORY)
      case Some(u) => if named[i] then CopyRows(fails, u, rows, named, i + 1) else Refused(INVALID_ARGUMENTS)
  }

  function Shown(s: string): Option<string> {
    if s == "" then None else Some(s)
  }

  function ShownRow(row: seq<string>, mvno: Option<string>): Sent {
    Sent(seq(|row|, i requires 0 <= i < |row| => Shown(row[i])), mvno)
  }

  /** convertMvnoTypeToString. */
  function MvnoName(t: MvnoType): Option<string> {
    match t
    case IMSI => Some("imsi")
    case GID => Some("gid")
    case SPN => Some("spn")
    case NONE => Some("")
    case Unknown(_) => None
  }

  function Row14(p: Profile, isRoaming: bool): seq<string> {
    [p.apn, if isRoaming then p.roamingProtocol else p.protocol, p.user, p.password]
  }

  function Row15(p: Profile): seq<string> {
    [p.apn, p.protocol, p.roamingProtocol, p.user, p.password, p.mvnoMatchData]
  }

  function RowOf(v14: bool, isRoaming: bool, p: Profile): seq<string> {
    if v14 then Row14(p, isRoaming) else Row15(p)
  }

  function Rows(v14: bool, isRoaming: bool, profiles: seq<Profile>): (r: seq<seq<string>>)
    ensures |r| == |profiles|
  {
    seq(|profiles|, i requires 0 <= i < |profiles| => RowOf(v14, isRoaming, profiles[i]))
  }

  /** The MVNO type matters to the newer structure only. */
  function Named(v14: bool, profiles: seq<Profile>): (r: seq<bool>)
    ensures |r| == |profiles|
  {
    seq(|profiles|, i requires 0 <= i < |profiles| => v14 || MvnoName(profiles[i].mvnoType).Some?)
  }

  function SentProfiles(v14: bool, isRoaming: bool, profiles: seq<Profile>): seq<Sent> {
    seq(|profiles|, i requires 0 <= i < |profiles| =>
      ShownRow(RowOf(v14, isRoaming, profiles[i]), if v14 then None else MvnoName(profiles[i].mvnoType)))
  }

  /** setDataProfile: two arrays, then the rows. */
  function ProfileVerdict(fails: nat -> bool, t: nat, v14: bool, isRoaming: bool, profiles: seq<Profile>): Verdict {
    if fails(t) || fails(t + 1) then Refused(NO_MEMORY)
    else CopyRows(fails, t + 2, Rows(v14, isRoaming, profiles), Named(v14, profiles), 0)
  }

  /** dispatchStrings: one array, then the strings. */
  function StringsVerdict(fails: nat -> bool, t: nat, strings: seq<string>): Verdict {
    if fails(t) then Refused(NO_MEMORY)
    else
      match CopyRow(fails, t + 1, strings, 0)
      case None => Refused(NO_MEMORY)
      case Some(u) => Passed(u)
  }

  function Outcome(v: Verdict, rows: seq<Sent>): Event {
    match v
    case Passed(_) => OnRequest(rows)
    case Refused(e) => Response(e)
  }

  // ---------- The methods of the source ----------

  class Ril {
    const fails: nat -> bool
    var live: map<nat, Block>   // allocated and not freed
    var next: nat               // allocations tried so far
    var log: seq<Event>

    constructor (fails: nat -> bool)
      ensures this.fails == fails && live == map[] && log == []
    {
      this.fails := fails;
      live, next, log := map[], 0, [];
    }

    ghost predicate Valid() reads this`live, this`next {
      forall a :: a in live ==> a < next
    }

    method Calloc(block: Block) returns (p: Ptr)
      requires Valid()
      modifies this`live, this`next
      ensures Valid() && next == old(next) + 1
      ensures p == if fails(old(next)) then Null else At(old(next))
      ensures live == if p == Null then old(live) else old(live)[old(next) := block]
    {
      if fails(next) {
        p := Null;
      } else {
        p := At(next);
        live := live[next := block];
      }
      next := next + 1;
    }

    /** A pointer may be freed once, and only one that came from calloc. */
    method Free(p: Ptr)
      requires Valid() && p.At? && p.addr in live
      modifies this`live
      ensures Valid() && live == old(live) - {p.addr}
    {
      live := live - {p.addr};
    }

    method SendErrorResponse(error: Errno)
      modifies this`log
      ensures log == old(log) + [Response(error)]
    {
      log := log + [Response(error)];
    }

    /** copyHidlStringToRil. */
    method CopyHidlStringToRil(src: string, row: nat, column: nat) returns (ok: bool, dest: Ptr)
      requires Valid()
      modifies this`live, this`next, this`log
      ensures Valid() && ok == (src == "" || !fails(old(next)))
      ensures next == old(next) + if src == "" then 0 else 1
      ensures dest == if src == "" || !ok then Null else At(old(next))
      ensures live == if dest == Null then old(live) else old(live)[old(next) := Block(src, row, column)]
      ensures log == if ok then old(log) else old(log) + [Response(NO_MEMORY)]
    {
      if src == "" {
        return true, Null;
      }
      dest := Calloc(Block(src, row, column));
      if dest == Null {
        SendErrorResponse(NO_MEMORY);
        return false, Null;
      }
      ok := true;
    }

    // ----- The ledger -----

    predicate Freed(c: nat, r: nat, i: nat, j: nat) {
      j < c || (j == c && i < r)
    }

    /** Every block is one from before, one of the arrays, or held by exactly one string member, the one
        it was copied for. The members freed already, column by column, hold none. */
    ghost predicate Ledger(cells: array2<Ptr>, base: map<nat, Block>, tables: set<nat>, c: nat, r: nat)
      reads this`live, this`next, cells
    {
      Valid() &&
      (forall a :: a in base ==> a in live && live[a] == base[a] && a !in tables) &&
      (forall a :: a in tables ==> a in live) &&
      (forall a :: a in live && a !in base && a !in tables ==>
         var b := live[a];
         b.row < cells.Length0 && b.column < cells.Length1 && cells[b.row, b.column] == At(a) && !Freed(c, r, b.row, b.column)) &&
      (forall i, j :: 0 <= i < cells.Length0 && 0 <= j < cells.Length1 && !Freed(c, r, i, j) && cells[i, j] != Null ==>
         cells[i, j].At? && cells[i, j].addr in live && cells[i, j].addr !in base && cells[i, j].addr !in tables &&
         live[cells[i, j].addr].row == i && live[cells[i, j].addr].column == j)
    }

    ghost predicate Holds(cells: array2<Ptr>, i: nat, j: nat, src: string)
      requires i < cells.Length0 && j < cells.Length1
      reads this`live, this`next, cells
    {
      if src == "" then cells[i, j] == Null
      else cells[i, j].At? && cells[i, j].addr in live && live[cells[i, j].addr].text == src
    }

    ghost predicate Shaped(cells: array2<Ptr>, rows: seq<seq<string>>) {
      |rows| == cells.Length0 && forall i :: 0 <= i < |rows| ==> |rows[i]| == cells.Length1
    }

    /** The members before this one, row by row, are copied, the others still null. */
    ghost predicate Filled(cells: array2<Ptr>, rows: seq<seq<string>>, i: nat, j: nat)
      requires Shaped(cells, rows)
      reads this`live, this`next, cells
    {
      forall k, l :: 0 <= k < cells.Length0 && 0 <= l < cells.Length1 ==>
        if k < i || (k == i && l < j) then Holds(cells, k, l, rows[k][l]) else cells[k, l] == Null
    }

    /** A request being copied. */
    ghost predicate Open(cells: array2<Ptr>, rows: seq<seq<string>>, i: nat, j: nat, base: map<nat, Block>, tables: set<nat>)
      reads this`live, this`next, cells
    {
      Shaped(cells, rows) && Ledger(cells, base, tables, 0, 0) && Filled(cells, rows, i, j)
    }

    /** One string member of one structure. */
    method PlaceMember(cells: array2<Ptr>, i: nat, j: nat, src: string,
                       ghost rows: seq<seq<string>>, ghost base: map<nat, Block>, ghost tables: set<nat>)
      returns (ok: bool)
      requires i < cells.Length0 && j < cells.Length1 && Shaped(cells, rows) && rows[i][j] == src
      requires Open(cells, rows, i, j, base, tables)
      modifies this`live, this`next, this`log, cells
      ensures Open(cells, rows, i, if ok then j + 1 else j, base, tables)
      ensures ok == (src == "" || !fails(old(next))) && next == old(next) + if src == "" then 0 else 1
      ensures log == if ok then old(log) else old(log) + [Response(NO_MEMORY)]
    {
      var dest: Ptr;
      ok, dest := CopyHidlStringToRil(src, i, j);
      cells[i, j] := dest;
    }

    /** The same, with what copying the rest of the row comes to. */
    method CopyMember(cells: array2<Ptr>, i: nat, j: nat, src: string, ghost rows: seq<seq<string>>, ghost end: Option<nat>,
                      ghost base: map<nat, Block>, ghost tables: set<nat>)
      returns (ok: bool)
      requires i < cells.Length0 && j < cells.Length1 && Shaped(cells, rows) && rows[i][j] == src
      requires Open(cells, rows, i, j, base, tables) && CopyRow(fails, next, rows[i], j) == end
      modifies this`live, this`next, this`log, cells
      ensures Open(cells, rows, i, if ok then j + 1 else j, base, tables)
      ensures ok ==> CopyRow(fails, next, rows[i], j + 1) == end && log == old(log)
      ensures !ok ==> end == None && log == old(log) + [Response(NO_MEMORY)]
    {
      ok := PlaceMember(cells, i, j, src, rows, base, tables);
    }

    /** The string members of the older structure. */
    method CopyStrings14(cells: array2<Ptr>, i: nat, p: Profile, isRoaming: bool,
                         ghost rows: seq<seq<string>>, ghost end: Option<nat>, ghost base: map<nat, Block>, ghost tables: set<nat>)
      returns (success: bool)
      requires i < cells.Length0 && cells.Length1 == 4 && Shaped(cells, rows) && rows[i] == Row14(p, isRoaming)
      requires Open(cells, rows, i, 0, base, tables) && CopyRow(fails, next, rows[i], 0) == end
      modifies this`live, this`next, this`log, cells
      ensures !success ==> Ledger(cells, base, tables, 0, 0)
      ensures success ==> Open(cells, rows, i, 4, base, tables) && end == Some(next) && log == old(log)
      ensures !success ==> end == None && log == old(log) + [Response(NO_MEMORY)]
    {
      success := CopyMember(cells, i, 0, p.apn, rows, end, base, tables);
      var protocol := if isRoaming then p.roamingProtocol else p.protocol;
      if success {
        success := CopyMember(cells, i, 1, protocol, rows, end, base, tables);
      }
      if success {
        success := CopyMember(cells, i, 2, p.user, rows, end, base, tables);
      }
      if success {
        success := CopyMember(cells, i, 3, p.password, rows, end, base, tables);
      }
    }

    /** The string members of the newer structure. */
    method CopyStrings15(cells: array2<Ptr>, i: nat, p: Profile,
                         ghost rows: seq<seq<string>>, ghost end: Option<nat>, ghost base: map<nat, Block>, ghost tables: set<nat>)
      returns (success: bool)
      requires i < cells.Length0 && cells.Length1 == 6 && Shaped(cells, rows) && rows[i] == Row15(p)
      requires Open(cells, rows, i, 0, base, tables) && CopyRow(fails, next, rows[i], 0) == end
      modifies this`live, this`next, this`log, cells
      ensures !success ==> Ledger(cells, base, tables, 0, 0)
      ensures success ==> Open(cells, rows, i, 6, base, tables) && end == Some(next) && log == old(log)
      ensures !success ==> end == None && log == old(log) + [Response(NO_MEMORY)]
    {
      success := CopyMember(cells, i, 0, p.apn, rows, end, base, tables);
      if success {
        success := CopyMember(cells, i, 1, p.protocol, rows, end, base, tables);
      }
      if success {
        success := CopyMember(cells, i, 2, p.roamingProtocol, rows, end, base, tables);
      }
      if success {
        success := CopyRest15(cells, i, p, rows, end, base, tables);
      }
    }

    method CopyRest15(cells: array2<Ptr>, i: nat, p: Profile,
                      ghost rows: seq<seq<string>>, ghost end: Option<nat>, ghost base: map<nat, Block>, ghost tables: set<nat>)
      returns (success: bool)
      requires i < cells.Length0 && cells.Length1 == 6 && Shaped(cells, rows) && rows[i] == Row15(p)
      requires Open(cells, rows, i, 3, base, tables) && CopyRow(fails, next, rows[i], 3) == end
      modifies this`live, this`next, this`log, cells
      ensures !success ==> Ledger(cells, base, tables, 0, 0)
      ensures success ==> Open(cells, rows, i, 6, base, tables) && end == Some(next) && log == old(log)
      ensures !success ==> end == None && log == old(log) + [Response(NO_MEMORY)]
    {
      success := CopyMember(cells, i, 3, p.user, rows, end, base, tables);
      if success {
        success := CopyMember(cells, i, 4, p.password, rows, end, base, tables);
      }
      if success {
        success := CopyMember(cells, i, 5, p.mvnoMatchData, rows, end, base, tables);
      }
    }

    /** The body of the loop for the newer structure: the MVNO type becomes a literal, not an allocation. */
    method CopyRow15(cells: array2<Ptr>, mvno: array<Ptr>, i: nat, p: Profile,
                     ghost rows: seq<seq<string>>, ghost end: Option<nat>, ghost base: map<nat, Block>, ghost tables: set<nat>)
      returns (success: bool)
      requires i < cells.Length0 == mvno.Length && cells.Length1 == 6 && Shaped(cells, rows) && rows[i] == Row15(p)
      requires Open(cells, rows, i, 0, base, tables) && CopyRow(fails, next, rows[i], 0) == end
      modifies this`live, this`next, this`log, cells, mvno
      ensures !success ==> Ledger(cells, base, tables, 0, 0)
      ensures success == (end.Some? && MvnoName(p.mvnoType).Some?)
      ensures success ==> Open(cells, rows, i, 6, base, tables) && end == Some(next) && log == old(log)
      ensures !success ==> log == old(log) + [Response(if end.None? then NO_MEMORY else INVALID_ARGUMENTS)]
      ensures mvno[..] == if success then old(mvno[..])[i := Literal(MvnoName(p.mvnoType).value)] else old(mvno[..])
    {
      success := CopyStrings15(cells, i, p, rows, end, base, tables);
      if success {
        match MvnoName(p.mvnoType)
        case Some(name) =>
          mvno[i] := Literal(name);
        case None =>
          SendErrorResponse(INVALID_ARGUMENTS);
          success := false;
      }
    }

    /** memsetAndFreeStrings for one member; null is passed over. */
    method FreeMember(cells: array2<Ptr>, i: nat, j: nat, ghost base: map<nat, Block>, ghost tables: set<nat>)
      requires i < cells.Length0 && j < cells.Length1 && Ledger(cells, base, tables, j, i)
      modifies this`live
      ensures Ledger(cells, base, tables, j, i + 1)
    {
      if cells[i, j] != Null {
        Free(cells[i, j]);
      }
    }

    /** freeSetDataProfileData: field by field over all structures, then the two arrays. */
    method FreeSetDataProfileData(cells: array2<Ptr>, dataProfiles: Ptr, dataProfilePtrs: Ptr, ghost base: map<nat, Block>)
      requires dataProfiles.At? && dataProfilePtrs.At? && dataProfiles != dataProfilePtrs
      requires Ledger(cells, base, {dataProfiles.addr, dataProfilePtrs.addr}, 0, 0)
      modifies this`live
      ensures Valid() && live == base
    {
      ghost var tables := {dataProfiles.addr, dataProfilePtrs.addr};
      for j := 0 to cells.Length1
        invariant Ledger(cells, base, tables, j, 0)
      {
        for i := 0 to cells.Length0
          invariant Ledger(cells, base, tables, j, i)
        {
          FreeMember(cells, i, j, base, tables);
        }
      }
      assert forall a :: a in live <==> a in base || a in tables;
      Free(dataProfiles);
      Free(dataProfilePtrs);
      assert forall a :: a in live <==> a in base;
    }

    // ----- dispatchStrings -----

    /** What the vendor library reads through the pointers. */
    method ReadRow(cells: array2<Ptr>, i: nat, mvno: Option<string>, ghost rows: seq<seq<string>>,
                   ghost base: map<nat, Block>, ghost tables: set<nat>)
      returns (r: Sent)
      requires Shaped(cells, rows) && Open(cells, rows, cells.Length0, 0, base, tables) && i < cells.Length0
      ensures r == ShownRow(rows[i], mvno)
    {
      var strings: seq<Option<string>> := [];
      for j := 0 to cells.Length1
        invariant |strings| == j && forall k :: 0 <= k < j ==> strings[k] == Shown(rows[i][k])
      {
        strings := strings + [if cells[i, j] == Null then None else Some(live[cells[i, j].addr].text)];
      }
      r := Sent(strings, mvno);
    }

    /** dispatchStrings for a list. */
    method DispatchStrings(strings: seq<string>) returns (ok: bool)
      requires Valid()
      modifies this`live, this`next, this`log
      ensures Valid() && live == old(live)
      ensures var v := StringsVerdict(fails, old(next), strings);
              ok == v.Passed? && log == old(log) + [Outcome(v, [ShownRow(strings, None)])]
    {
      var pStrings := Calloc(Block("", 0, 0));
      if pStrings == Null {
        SendErrorResponse(NO_MEMORY);
        return false;
      }
      var cells := new Ptr[1, |strings|]((i, j) => Null);
      ok := CopyStrings(strings, cells, pStrings, old(live));
      if ok {
        var sent := ReadRow(cells, 0, None, [strings], old(live), {pStrings.addr});
        log := log + [OnRequest([sent])];
        FreeStrings(|strings|, cells, pStrings, old(live));
      }
    }

    /** Its loop, which takes back what it copied when a copy fails. */
    method CopyStrings(strings: seq<string>, cells: array2<Ptr>, pStrings: Ptr, ghost base: map<nat, Block>) returns (ok: bool)
      requires pStrings.At? && cells.Length0 == 1 && cells.Length1 == |strings|
      requires Open(cells, [strings], 0, 0, base, {pStrings.addr})
      modifies this`live, this`next, this`log, cells
      ensures Valid() && ok == CopyRow(fails, old(next), strings, 0).Some?
      ensures if ok then Open(cells, [strings], 1, 0, base, {pStrings.addr}) && log == old(log)
              else live == base && log == old(log) + [Response(NO_MEMORY)]
    {
      ghost var end := CopyRow(fails, next, strings, 0);
      for i := 0 to |strings|
        invariant Open(cells, [strings], 0, i, base, {pStrings.addr}) && CopyRow(fails, next, strings, i) == end && log == old(log)
      {
        ok := CopyMember(cells, 0, i, strings[i], [strings], end, base, {pStrings.addr});
        if !ok {
          FreeStrings(i, cells, pStrings, base);
          return;
        }
      }
      ok := true;
    }

    /** Free the first strings, and their array. */
    method FreeStrings(n: nat, cells: array2<Ptr>, pStrings: Ptr, ghost base: map<nat, Block>)
      requires pStrings.At? && cells.Length0 == 1 && n <= cells.Length1 && Ledger(cells, base, {pStrings.addr}, 0, 0)
      requires forall k :: n <= k < cells.Length1 ==> cells[0, k] == Null
      modifies this`live
      ensures Valid() && live == base
    {
      for j := 0 to n
        invariant Ledger(cells, base, {pStrings.addr}, j, 0)
      {
        FreeMember(cells, 0, j, base, {pStrings.addr});
      }
      Free(pStrings);
      assert forall a :: a in live <==> a in base;
    }

    // ----- setDataProfile -----

    /** The two arrays, or an error response with neither of them. */
    method AllocateProfiles() returns (ok: bool, dataProfiles: Ptr, dataProfilePtrs: Ptr)
      requires Valid()
      modifies this`live, this`next, this`log
      ensures Valid() && ok == !(fails(old(next)) || fails(old(next) + 1))
      ensures if ok then
                dataProfiles == At(old(next)) && dataProfilePtrs == At(old(next) + 1) && next == old(next) + 2 && log == old(log) &&
                live == old(live)[old(next) := Block("", 0, 0)][old(next) + 1 := Block("", 0, 0)]
              else live == old(live) && log == old(log) + [Response(NO_MEMORY)]
    {
      dataProfilePtrs := Null;
      dataProfiles := Calloc(Block("", 0, 0));
      if dataProfiles == Null {
        SendErrorResponse(NO_MEMORY);
        return false, dataProfiles, dataProfilePtrs;
      }
      dataProfilePtrs := Calloc(Block("", 0, 0));
      if dataProfilePtrs == Null {
        Free(dataProfiles);
        SendErrorResponse(NO_MEMORY);
        return false, dataProfiles, dataProfilePtrs;
      }
      ok := true;
    }

    /** One turn of the loop over the older structures. */
    method CopyProfile14(p: Profile, isRoaming: bool, i: nat, cells: array2<Ptr>, ptrs: array<int>,
                         ghost rows: seq<seq<string>>, ghost end: Option<nat>, ghost base: map<nat, Block>, ghost tables: set<nat>)
      returns (success: bool)
      requires i < cells.Length0 == ptrs.Length == |rows| && cells.Length1 == 4
      requires rows[i] == Row14(p, isRoaming) && forall k :: 0 <= k < i ==> ptrs[k] == k
      requires Open(cells, rows, i, 0, base, tables) && CopyRow(fails, next, rows[i], 0) == end
      modifies this`live, this`next, this`log, cells, ptrs
      ensures if success
              then Open(cells, rows, i + 1, 0, base, tables) && end == Some(next) && log == old(log)
              else Ledger(cells, base, tables, 0, 0) && end == None && log == old(log) + [Response(NO_MEMORY)]
      ensures success ==> forall k :: 0 <= k < i + 1 ==> ptrs[k] == k
    {
      ptrs[i] := i;
      success := CopyStrings14(cells, i, p, isRoaming, rows, end, base, tables);
    }

    /** The loop over the older structures. */
    method CopyProfiles14(profiles: seq<Profile>, isRoaming: bool, cells: array2<Ptr>, ptrs: array<int>,
                          ghost rows: seq<seq<string>>, ghost named: seq<bool>, ghost base: map<nat, Block>, ghost tables: set<nat>)
      returns (success: bool)
      requires cells.Length0 == ptrs.Length == |profiles| == |rows| == |named| && cells.Length1 == 4
      requires forall i :: 0 <= i < |profiles| ==> rows[i] == Row14(profiles[i], isRoaming) && named[i]
      requires Open(cells, rows, 0, 0, base, tables)
      modifies this`live, this`next, this`log, cells, ptrs
      ensures var v := CopyRows(fails, old(next), rows, named, 0);
              success == v.Passed? && log == if success then old(log) else old(log) + [Response(v.error)]
      ensures if success then Open(cells, rows, |profiles|, 0, base, tables) && forall i :: 0 <= i < ptrs.Length ==> ptrs[i] == i
              else Ledger(cells, base, tables, 0, 0)
    {
      ghost var v := CopyRows(fails, next, rows, named, 0);
      for i := 0 to |profiles|
        invariant Open(cells, rows, i, 0, base, tables) && CopyRows(fails, next, rows, named, i) == v && log == old(log)
        invariant forall k :: 0 <= k < i ==> ptrs[k] == k
      {
        success := CopyProfile14(profiles[i], isRoaming, i, cells, ptrs, rows, CopyRow(fails, next, rows[i], 0), base, tables);
        if !success {
          return;
        }
      }
      success := true;
    }

    ghost predicate MvnoSet(mvno: array<Ptr>, profiles: seq<Profile>, n: nat)
      requires n <= mvno.Length == |profiles|
      reads mvno
    {
      forall k :: 0 <= k < n ==> MvnoName(profiles[k].mvnoType).Some? && mvno[k] == Literal(MvnoName(profiles[k].mvnoType).value)
    }

    /** One turn of the loop over the newer structures. */
    method CopyProfile15(profiles: seq<Profile>, i: nat, cells: array2<Ptr>, ptrs: array<int>, mvno: array<Ptr>,
                         ghost rows: seq<seq<string>>, ghost end: Option<nat>, ghost base: map<nat, Block>, ghost tables: set<nat>)
      returns (success: bool)
      requires i < cells.Length0 == ptrs.Length == mvno.Length == |profiles| == |rows| && cells.Length1 == 6
      requires rows[i] == Row15(profiles[i]) && MvnoSet(mvno, profiles, i) && forall k :: 0 <= k < i ==> ptrs[k] == k
      requires Open(cells, rows, i, 0, base, tables) && CopyRow(fails, next, rows[i], 0) == end
      modifies this`live, this`next, this`log, cells, ptrs, mvno
      ensures success == (end.Some? && MvnoName(profiles[i].mvnoType).Some?)
      ensures if success
              then Open(cells, rows, i + 1, 0, base, tables) && end == Some(next) && log == old(log)
              else Ledger(cells, base, tables, 0, 0) &&
                   log == old(log) + [Response(if end.None? then NO_MEMORY else INVALID_ARGUMENTS)]
      ensures success ==> MvnoSet(mvno, profiles, i + 1) && forall k :: 0 <= k < i + 1 ==> ptrs[k] == k
    {
      ptrs[i] := i;
      ghost var was := mvno[..];
      success := CopyRow15(cells, mvno, i, profiles[i], rows, end, base, tables);
      assert forall k :: 0 <= k < i ==> mvno[..][k] == was[k];
    }

    /** The loop over the newer structures. */
    method CopyProfiles15(profiles: seq<Profile>, cells: array2<Ptr>, ptrs: array<int>, mvno: array<Ptr>,
                          ghost rows: seq<seq<string>>, ghost named: seq<bool>, ghost base: map<nat, Block>, ghost tables: set<nat>)
      returns (success: bool)
      requires cells.Length0 == ptrs.Length == mvno.Length == |profiles| == |rows| == |named| && cells.Length1 == 6
      requires forall i :: 0 <= i < |profiles| ==> rows[i] == Row15(profiles[i]) && named[i] == MvnoName(profiles[i].mvnoType).Some?
      requires Open(cells, rows, 0, 0, base, tables)
      modifies this`live, this`next, this`log, cells, ptrs, mvno
      ensures var v := CopyRows(fails, old(next), rows, named, 0);
              success == v.Passed? && log == if success then old(log) else old(log) + [Response(v.error)]
      ensures if success
              then Open(cells, rows, |profiles|, 0, base, tables) && MvnoSet(mvno, profiles, |profiles|) &&
                   forall i :: 0 <= i < ptrs.Length ==> ptrs[i] == i
              else Ledger(cells, base, tables, 0, 0)
    {
      ghost var v := CopyRows(fails, next, rows, named, 0);
      for i := 0 to |profiles|
        invariant Open(cells, rows, i, 0, base, tables) && CopyRows(fails, next, rows, named, i) == v && log == old(log)
        invariant MvnoSet(mvno, profiles, i) && forall k :: 0 <= k < i ==> ptrs[k] == k
      {
        success := CopyProfile15(profiles, i, cells, ptrs, mvno, rows, CopyRow(fails, next, rows[i], 0), base, tables);
        if !success {
          return;
        }
      }
      success := true;
    }

    /** What the vendor library reads through the array of pointers. */
    method ReadProfiles(cells: array2<Ptr>, ptrs: array<int>, v14: bool, mvno: array<Ptr>,
                        ghost rows: seq<seq<string>>, ghost base: map<nat, Block>, ghost tables: set<nat>)
      returns (sent: seq<Sent>)
      requires Shaped(cells, rows) && Open(cells, rows, cells.Length0, 0, base, tables)
      requires ptrs.Length == cells.Length0 && forall i :: 0 <= i < ptrs.Length ==> ptrs[i] == i
      requires !v14 ==> mvno.Length == ptrs.Length && forall i :: 0 <= i < mvno.Length ==> mvno[i].Literal?
      ensures |sent| == |rows|
      ensures forall i :: 0 <= i < |rows| ==> sent[i] == ShownRow(rows[i], if v14 then None else Some(mvno[i].text))
    {
      sent := [];
      for i := 0 to ptrs.Length
        invariant |sent| == i
        invariant forall k :: 0 <= k < i ==> sent[k] == ShownRow(rows[k], if v14 then None else Some(mvno[k].text))
      {
        var r := ReadRow(cells, ptrs[i], if v14 then None else Some(mvno[ptrs[i]].text), rows, base, tables);
        sent := sent + [r];
      }
    }

    /** The request goes to the vendor library, and the copies are freed. */
    method HandOver(cells: array2<Ptr>, ptrs: array<int>, v14: bool, mvno: array<Ptr>, dataProfiles: Ptr, dataProfilePtrs: Ptr,
                    ghost rows: seq<seq<string>>, ghost expected: seq<Sent>, ghost base: map<nat, Block>)
      requires dataProfiles.At? && dataProfilePtrs.At? && dataProfiles != dataProfilePtrs && Shaped(cells, rows)
      requires Open(cells, rows, cells.Length0, 0, base, {dataProfiles.addr, dataProfilePtrs.addr})
      requires ptrs.Length == cells.Length0 && forall i :: 0 <= i < ptrs.Length ==> ptrs[i] == i
      requires !v14 ==> mvno.Length == ptrs.Length && forall i :: 0 <= i < mvno.Length ==> mvno[i].Literal?
      requires |expected| == |rows|
      requires forall i :: 0 <= i < |rows| ==> expected[i] == ShownRow(rows[i], if v14 then None else Some(mvno[i].text))
      modifies this`live, this`log
      ensures Valid() && live == base && log == old(log) + [OnRequest(expected)]
    {
      var sent := ReadProfiles(cells, ptrs, v14, mvno, rows, base, {dataProfiles.addr, dataProfilePtrs.addr});
      assert sent == expected;
      log := log + [OnRequest(sent)];
      FreeSetDataProfileData(cells, dataProfiles, dataProfilePtrs, base);
    }

    lemma {:induction false} OpenAtFirst(cells: array2<Ptr>, rows: seq<seq<string>>, base: map<nat, Block>, p: nat, q: nat)
      requires Valid() && live == base[p := Block("", 0, 0)][q := Block("", 0, 0)] && p !in base && q !in base
      requires Shaped(cells, rows) && forall i, j :: 0 <= i < cells.Length0 && 0 <= j < cells.Length1 ==> cells[i, j] == Null
      ensures Open(cells, rows, 0, 0, base, {p, q})
    {}

    /** setDataProfile for version 14 and older, with its arrays. */
    method SetProfiles14(profiles: seq<Profile>, isRoaming: bool, dataProfiles: Ptr, dataProfilePtrs: Ptr, ghost base: map<nat, Block>)
      requires dataProfiles.At? && dataProfilePtrs.At? && dataProfiles != dataProfilePtrs && Valid()
      requires live == base[dataProfiles.addr := Block("", 0, 0)][dataProfilePtrs.addr := Block("", 0, 0)]
      requires dataProfiles.addr !in base && dataProfilePtrs.addr !in base
      modifies this`live, this`next, this`log
      ensures Valid() && live == base
      ensures log == old(log) + [Outcome(CopyRows(fails, old(next), Rows(true, isRoaming, profiles), Named(true, profiles), 0),
                                         SentProfiles(true, isRoaming, profiles))]
    {
      ghost var rows, tables := Rows(true, isRoaming, profiles), {dataProfiles.addr, dataProfilePtrs.addr};
      var cells := new Ptr[|profiles|, 4]((i, j) => Null);
      OpenAtFirst(cells, rows, base, dataProfiles.addr, dataProfilePtrs.addr);
      var ptrs := new int[|profiles|];
      var success := CopyProfiles14(profiles, isRoaming, cells, ptrs, rows, Named(true, profiles), base, tables);
      if !success {
        FreeSetDataProfileData(cells, dataProfiles, dataProfilePtrs, base);
        return;
      }
      var none := new Ptr[0];
      HandOver(cells, ptrs, true, none, dataProfiles, dataProfilePtrs, rows, SentProfiles(true, isRoaming, profiles), base);
    }

    /** setDataProfile for newer versions, with its arrays. */
    method SetProfiles15(profiles: seq<Profile>, isRoaming: bool, dataProfiles: Ptr, dataProfilePtrs: Ptr, ghost base: map<nat, Block>)
      requires dataProfiles.At? && dataProfilePtrs.At? && dataProfiles != dataProfilePtrs && Valid()
      requires live == base[dataProfiles.addr := Block("", 0, 0)][dataProfilePtrs.addr := Block("", 0, 0)]
      requires dataProfiles.addr !in base && dataProfilePtrs.addr !in base
      modifies this`live, this`next, this`log
      ensures Valid() && live == base
      ensures log == old(log) + [Outcome(CopyRows(fails, old(next), Rows(false, isRoaming, profiles), Named(false, profiles), 0),
                                         SentProfiles(false, isRoaming, profiles))]
    {
      ghost var rows, tables := Rows(false, isRoaming, profiles), {dataProfiles.addr, dataProfilePtrs.addr};
      var cells := new Ptr[|profiles|, 6]((i, j) => Null);
      OpenAtFirst(cells, rows, base, dataProfiles.addr, dataProfilePtrs.addr);
      var ptrs, mvno := new int[|profiles|], new Ptr[|profiles|](_ => Null);
      var success := CopyProfiles15(profiles, cells, ptrs, mvno, rows, Named(false, profiles), base, tables);
      if !success {
        FreeSetDataProfileData(cells, dataProfiles, dataProfilePtrs, base);
        return;
      }
      HandOver(cells, ptrs, false, mvno, dataProfiles, dataProfilePtrs, rows, SentProfiles(false, isRoaming, profiles), base);
    }

    /** setDataProfile. */
    method SetDataProfile(version: int, profiles: seq<Profile>, isRoaming: bool)
      requires Valid()
      modifies this`live, this`next, this`log
      ensures Valid() && live == old(live)
      ensures log == old(log) + [Outcome(ProfileVerdict(fails, old(next), version <= 14, isRoaming, profiles),
                                         SentProfiles(version <= 14, isRoaming, profiles))]
    {
      var ok, dataProfiles, dataProfilePtrs := AllocateProfiles();
      if ok {
        if version <= 14 {
          SetProfiles14(profiles, isRoaming, dataProfiles, dataProfilePtrs, old(live));
        } else {
          SetProfiles15(profiles, isRoaming, dataProfiles, dataProfilePtrs, old(live));
        }
      }
    }
  }

  // ---------- When a request reaches the vendor library ----------

  /** Strings that take an allocation. */
  function Needed(row: seq<string>, j: nat): nat
    requires j <= |row|
    decreases |row| - j, row
  {
    if j == |row| then 0 else (if row[j] == "" then 0 else 1) + Needed(row, j + 1)
  }

  function NeededUpTo(rows: seq<seq<string>>, i: nat, end: nat): nat
    requires i <= end <= |rows|
    decreases end - i, rows
  {
    if i == end then 0 else Needed(rows[i], 0) + NeededUpTo(rows, i + 1, end)
  }

  ghost predicate Succeed(fails: nat -> bool, t: nat, n: nat) {
    forall k :: t <= k < t + n ==> !fails(k)
  }

  lemma {:induction false} RowPassesIff(fails: nat -> bool, t: nat, row: seq<string>, j: nat)
    requires j <= |row|
    ensures CopyRow(fails, t, row, j) == if Succeed(fails, t, Needed(row, j)) then Some(t + Needed(row, j)) else None
    decreases |row| - j
  {
    if j < |row| {
      if row[j] == "" {
        RowPassesIff(fails, t, row, j + 1);
      } else if !fails(t) {
        RowPassesIff(fails, t + 1, row, j + 1);
        assert Succeed(fails, t, 1 + Needed(row, j + 1)) <==> Succeed(fails, t + 1, Needed(row, j + 1));
      }
    }
  }

  lemma {:induction false} SucceedSplits(fails: nat -> bool, t: nat, m: nat, n: nat)
    ensures Succeed(fails, t, m + n) <==> Succeed(fails, t, m) && Succeed(fails, t + m, n)
  {
    if Succeed(fails, t, m) && Succeed(fails, t + m, n) {
      forall k | t <= k < t + (m + n) ensures !fails(k) {}
    }
  }

  /** The rows pass exactly when no allocation they need fails and every MVNO type has a name. */
  lemma {:induction false} RowsPassIff(fails: nat -> bool, t: nat, rows: seq<seq<string>>, named: seq<bool>, i: nat)
    requires i <= |rows| == |named|
    ensures var v, n := CopyRows(fails, t, rows, named, i), NeededUpTo(rows, i, |rows|);
            (v.Passed? <==> Succeed(fails, t, n) && forall k :: i <= k < |rows| ==> named[k]) && (v.Passed? ==> v.t == t + n)
    decreases |rows| - i
  {
    if i < |rows| {
      var m := Needed(rows[i], 0);
      RowPassesIff(fails, t, rows[i], 0);
      RowsPassIff(fails, t + m, rows, named, i + 1);
      SucceedSplits(fails, t, m, NeededUpTo(rows, i + 1, |rows|));
    }
  }

  /** An unknown MVNO type is what a refusal names exactly when every allocation up to and including the
      first such row succeeds. */
  lemma {:induction false} InvalidIff(fails: nat -> bool, t: nat, rows: seq<seq<string>>, named: seq<bool>, i: nat, bad: nat)
    requires i <= bad < |rows| == |named| && !named[bad] && forall k :: i <= k < bad ==> named[k]
    ensures CopyRows(fails, t, rows, named, i) ==
            Refused(if Succeed(fails, t, NeededUpTo(rows, i, bad + 1)) then INVALID_ARGUMENTS else NO_MEMORY)
    decreases bad - i
  {
    var m := Needed(rows[i], 0);
    RowPassesIff(fails, t, rows[i], 0);
    SucceedSplits(fails, t, m, NeededUpTo(rows, i + 1, bad + 1));
    if i < bad {
      InvalidIff(fails, t + m, rows, named, i + 1, bad);
    }
  }

  /** setDataProfile hands the profiles over exactly when its two arrays and all its strings could be
      allocated and every MVNO type it has to name is known; otherwise the answer is an error. */
  lemma {:induction false} ProfilePassesIff(fails: nat -> bool, t: nat, v14: bool, isRoaming: bool, profiles: seq<Profile>)
    ensures var n := 2 + NeededUpTo(Rows(v14, isRoaming, profiles), 0, |profiles|);
            Outcome(ProfileVerdict(fails, t, v14, isRoaming, profiles), SentProfiles(v14, isRoaming, profiles)) ==
            OnRequest(SentProfiles(v14, isRoaming, profiles)) <==>
              Succeed(fails, t, n) && (v14 || forall i :: 0 <= i < |profiles| ==> !profiles[i].mvnoType.Unknown?)
  {
    var rows, named := Rows(v14, isRoaming, profiles), Named(v14, profiles);
    RowsPassIff(fails, t + 2, rows, named, 0);
    SucceedSplits(fails, t, 2, NeededUpTo(rows, 0, |rows|));
    assert Succeed(fails, t, 2) <==> !fails(t) && !fails(t + 1);
    assert forall i :: 0 <= i < |profiles| ==> named[i] == (v14 || !profiles[i].mvnoType.Unknown?);
  }

  /** Otherwise the error says why. For an MVNO type without a name in the newer structure it is
      INVALID_ARGUMENTS exactly when every allocation up to its row succeeded; */
  lemma {:induction false} ProfileInvalidIff(fails: nat -> bool, t: nat, isRoaming: bool, profiles: seq<Profile>, bad: nat)
    requires bad < |profiles| && profiles[bad].mvnoType.Unknown? && forall k :: 0 <= k < bad ==> !profiles[k].mvnoType.Unknown?
    ensures ProfileVerdict(fails, t, false, isRoaming, profiles) ==
            Refused(if Succeed(fails, t, 2 + NeededUpTo(Rows(false, isRoaming, profiles), 0, bad + 1)) then INVALID_ARGUMENTS else NO_MEMORY)
  {
    var rows, named := Rows(false, isRoaming, profiles), Named(false, profiles);
    InvalidIff(fails, t + 2, rows, named, 0, bad);
    SucceedSplits(fails, t, 2, NeededUpTo(rows, 0, bad + 1));
    assert Succeed(fails, t, 2) <==> !fails(t) && !fails(t + 1);
  }

  /** and in every other case it is NO_MEMORY. */
  lemma {:induction false} ProfileMemory(fails: nat -> bool, t: nat, v14: bool, isRoaming: bool, profiles: seq<Profile>)
    requires v14 || forall i :: 0 <= i < |profiles| ==> !profiles[i].mvnoType.Unknown?
    ensures var v := ProfileVerdict(fails, t, v14, isRoaming, profiles); v.Passed? || v == Refused(NO_MEMORY)
  {
    var named := Named(v14, profiles);
    assert forall i :: 0 <= i < |profiles| ==> named[i];
    NamedNeverInvalid(fails, t + 2, Rows(v14, isRoaming, profiles), named, 0);
  }

  lemma {:induction false} NamedNeverInvalid(fails: nat -> bool, t: nat, rows: seq<seq<string>>, named: seq<bool>, i: nat)
    requires i <= |rows| == |named| && forall k :: 0 <= k < |named| ==> named[k]
    ensures CopyRows(fails, t, rows, named, i).Refused? ==> CopyRows(fails, t, rows, named, i).error == NO_MEMORY
    decreases |rows| - i
  {
    if i < |rows| {
      match CopyRow(fails, t, rows[i], 0)
      case None =>
      case Some(u) => NamedNeverInvalid(fails, u, rows, named, i + 1);
    }
  }

  /** What a string member shows: a null pointer for the empty string, and else the string. */
  predicate Shows(member: Option<string>, s: string) {
    if s == "" then member.None? else member == Some(s)
  }

  /** What the vendor library reads in each structure: in the older one the APN, the protocol of the roaming
      state, user and password; in the newer one both protocols, the MVNO match data, and the MVNO type by
      its name. */
  lemma {:induction false} SentMeans(v14: bool, isRoaming: bool, profiles: seq<Profile>, i: nat)
    requires i < |profiles|
    ensures |SentProfiles(v14, isRoaming, profiles)| == |profiles|
    ensures var p, sent := profiles[i], SentProfiles(v14, isRoaming, profiles)[i];
            if v14 then
              |sent.strings| == 4 && Shows(sent.strings[0], p.apn) && (isRoaming ==> Shows(sent.strings[1], p.roamingProtocol)) &&
              (!isRoaming ==> Shows(sent.strings[1], p.protocol)) && Shows(sent.strings[2], p.user) &&
              Shows(sent.strings[3], p.password) && sent.mvno == None
            else
              |sent.strings| == 6 && Shows(sent.strings[0], p.apn) && Shows(sent.strings[1], p.protocol) &&
              Shows(sent.strings[2], p.roamingProtocol) && Shows(sent.strings[3], p.user) && Shows(sent.strings[4], p.password) &&
              Shows(sent.strings[5], p.mvnoMatchData) &&
              match p.mvnoType
              case IMSI => sent.mvno == Some("imsi")
              case GID => sent.mvno == Some("gid")
              case SPN => sent.mvno == Some("spn")
              case NONE => sent.mvno == Some("")
              case Unknown(_) => sent.mvno == None
  {}

  /** What dispatchStrings hands over: every string in its place. */
  lemma {:induction false} StringsMean(strings: seq<string>, i: nat)
    requires i < |strings|
    ensures |ShownRow(strings, None).strings| == |strings| && Shows(ShownRow(strings, None).strings[i], strings[i])
  {}

  /** dispatchStrings hands the strings over exactly when the array and every string that is not empty
      could be allocated. */
  lemma {:induction false} StringsPassIff(fails: nat -> bool, t: nat, strings: seq<string>)
    ensures var v := StringsVerdict(fails, t, strings);
            (v.Passed? <==> Succeed(fails, t, 1 + Needed(strings, 0))) && (v.Refused? ==> v.error == NO_MEMORY)
  {
    RowPassesIff(fails, t + 1, strings, 0);
    SucceedSplits(fails, t, 1, Needed(strings, 0));
    assert Succeed(fails, t, 1) <==> !fails(t);
  }
}
