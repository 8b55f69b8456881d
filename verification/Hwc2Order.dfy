/** What the Z order, the HWC1 numbers and the arena of a display mean, over all runs of its methods. */
module Hwc2Order {
  import opened Options
  import opened Sequences
  import opened Hwc2Layers

  // ---------- Runs ----------

  /** The methods of one display, and what other displays do to the device's layers meanwhile. */
  datatype Op =
    | Create
    | Destroy(id: nat)
    | SetZ(id: nat, z: nat)
    | SetRegions(id: nat, visible: seq<Rect>, damage: nat)
    | Elsewhere(known: map<nat, Layer>, nextId: nat)

  /** A display's layers, with the time each of them was last put in its place. */
  datatype Past = Past(s: Stack, placed: map<nat, nat>, clock: nat)

  /** destroyLayer is called with the display's own layers only. */
  predicate Enabled(me: nat, s: Stack, op: Op) {
    match op
    case Create => true
    case Destroy(id) => id in s.known ==> s.known[id].display == me
    case SetZ(_, _) => true
    case SetRegions(id, _, _) => id in s.known && s.known[id].display == me
    case Elsewhere(known, n) =>
      s.nextId <= n && (forall id :: id in known ==> id < n) &&
      (forall id :: id in s.known && s.known[id].display == me ==> id in known && known[id] == s.known[id]) &&
      (forall id :: id in known && known[id].display == me ==> id in s.known && s.known[id] == known[id])
  }

  function Next(me: nat, p: Past, op: Op): Past
    requires Enabled(me, p.s, op)
  {
    var s := p.s;
    match op
    case Create => Past(CreateLayer(s, me), p.placed[s.nextId := p.clock], p.clock + 1)
    case Destroy(id) => p.(s := DestroyLayer(s, id).0)
    case SetZ(id, z) =>
      var (t, error) := UpdateLayerZ(s, id, z);
      if error == Fine && ZOf(s.known, id) != z then Past(t, p.placed[id := p.clock], p.clock + 1) else p.(s := t)
    case SetRegions(id, visible, damage) =>
      p.(s := s.(known := s.known[id := s.known[id].(visible := visible, damage := damage)]))
    case Elsewhere(known, n) => p.(s := s.(known := known, nextId := n))
  }

  predicate Allowed(me: nat, p: Past, ops: seq<Op>)
    decreases |ops|
  {
    ops == [] || (Enabled(me, p.s, ops[0]) && Allowed(me, Next(me, p, ops[0]), ops[1..]))
  }

  function After(me: nat, p: Past, ops: seq<Op>): Past
    requires Allowed(me, p, ops)
    decreases |ops|
  {
    if ops == [] then p else After(me, Next(me, p, ops[0]), ops[1..])
  }

  // ---------- The order ----------

  function Placed(placed: map<nat, nat>, id: nat): nat {
    if id in placed then placed[id] else 0
  }

  /** Lower Z first; among equals, the one that was put there earlier. */
  predicate Before(known: map<nat, Layer>, placed: map<nat, nat>, x: nat, y: nat) {
    ZOf(known, x) < ZOf(known, y) || (ZOf(known, x) == ZOf(known, y) && Placed(placed, x) < Placed(placed, y))
  }

  ghost predicate Sorted(known: map<nat, Layer>, placed: map<nat, nat>, order: seq<nat>) {
    forall i, j :: 0 <= i < j < |order| ==> Before(known, placed, order[i], order[j])
  }

  ghost predicate Members(me: nat, s: Stack) {
    (forall i :: 0 <= i < |s.order| ==> s.order[i] in s.known && s.known[s.order[i]].display == me) &&
    (forall id :: id in s.known ==> id < s.nextId && (s.known[id].display == me ==> id in s.order))
  }

  ghost predicate Earlier(placed: map<nat, nat>, order: seq<nat>, clock: nat) {
    forall i :: 0 <= i < |order| ==> Placed(placed, order[i]) < clock
  }

  ghost predicate Inv(me: nat, p: Past) {
    Members(me, p.s) && Sorted(p.s.known, p.placed, p.s.order) && Earlier(p.placed, p.s.order, p.clock)
  }

  lemma {:induction false} SortedIsDistinct(known: map<nat, Layer>, placed: map<nat, nat>, order: seq<nat>)
    requires Sorted(known, placed, order)
    ensures forall i, j :: 0 <= i < j < |order| ==> order[i] != order[j]
  {
    forall i, j | 0 <= i < j < |order| ensures order[i] != order[j] {
      assert Before(known, placed, order[i], order[j]);
    }
  }

  lemma {:induction false} SortedByZ(known: map<nat, Layer>, placed: map<nat, nat>, order: seq<nat>, i: nat, j: nat)
    requires Sorted(known, placed, order)
    ensures i <= j < |order| ==> ZOf(known, order[i]) <= ZOf(known, order[j])
  {
    assert i < j < |order| ==> Before(known, placed, order[i], order[j]);
  }

  lemma {:induction false} SortedNotAfter(known: map<nat, Layer>, placed: map<nat, nat>, order: seq<nat>, i: nat, j: nat)
    requires Sorted(known, placed, order)
    ensures i < j < |order| ==> !Before(known, placed, order[j], order[i])
  {
    assert i < j < |order| ==> Before(known, placed, order[i], order[j]);
  }

  /** equal_range finds a layer where it is. */
  lemma {:induction false} SeatIs(s: Stack, placed: map<nat, nat>, i: nat)
    requires Sorted(s.known, placed, s.order) && i < |s.order|
    ensures Seat(s, s.order[i]) == Some(i)
  {
    var z := ZOf(s.known, s.order[i]);
    var hi := UpperBound(s.known, s.order, z, 0);
    SortedByZ(s.known, placed, s.order, hi, i);
    SortedIsDistinct(s.known, placed, s.order);
    assert Seat(s, s.order[i]).Some?;
  }

  lemma {:induction false} SeatOfOther(s: Stack, id: nat)
    requires id !in s.order
    ensures Seat(s, id) == None
  {}

  lemma {:induction false} WithoutIs(known: map<nat, Layer>, placed: map<nat, nat>, order: seq<nat>, i: nat)
    requires Sorted(known, placed, order) && i < |order|
    ensures Sorted(known, placed, Without(order, i))
    ensures forall x :: x in Without(order, i) <==> x in order && x != order[i]
  {
    SortedIsDistinct(known, placed, order);
    assert order == order[..i] + [order[i]] + order[i + 1..];
    forall j, k | 0 <= j < k < |Without(order, i)| ensures Before(known, placed, Without(order, i)[j], Without(order, i)[k]) {
      assert Without(order, i)[j] == order[if j < i then j else j + 1] && Without(order, i)[k] == order[if k < i then k else k + 1];
    }
  }

  /** A new or moved layer goes above those of its Z and below those of a higher one. */
  lemma {:induction false} EmplacedIs(known: map<nat, Layer>, placed: map<nat, nat>, order: seq<nat>, id: nat, clock: nat)
    requires Sorted(known, placed, order) && Earlier(placed, order, clock) && Placed(placed, id) == clock
    ensures Sorted(known, placed, Emplaced(known, order, id))
    ensures forall x :: x in Emplaced(known, order, id) <==> x == id || x in order
    ensures Earlier(placed, Emplaced(known, order, id), clock + 1)
  {
    var k := UpperBound(known, order, ZOf(known, id), 0);
    forall j | 0 <= j < |order|
      ensures if j < k then Before(known, placed, order[j], id) else Before(known, placed, id, order[j])
    {
      SortedByZ(known, placed, order, k, j);
    }
    InsertedSorted(known, placed, order, k, id);
    InsertedMembers(order, k, id);
    InsertedEarlier(placed, order, k, id, clock);
  }

  lemma {:induction false} InsertedMembers(order: seq<nat>, k: nat, id: nat)
    requires k <= |order|
    ensures forall x :: x in order[..k] + [id] + order[k..] <==> x == id || x in order
  {
    assert order == order[..k] + order[k..];
  }

  lemma {:induction false} InsertedEarlier(placed: map<nat, nat>, order: seq<nat>, k: nat, id: nat, clock: nat)
    requires k <= |order| && Earlier(placed, order, clock) && Placed(placed, id) == clock
    ensures Earlier(placed, order[..k] + [id] + order[k..], clock + 1)
  {
    var e := order[..k] + [id] + order[k..];
    forall i | 0 <= i < |e| ensures Placed(placed, e[i]) < clock + 1 {
      assert e[i] == if i < k then order[i] else if i == k then id else order[i - 1];
    }
  }

  lemma {:induction false} InsertedSorted(known: map<nat, Layer>, placed: map<nat, nat>, order: seq<nat>, k: nat, id: nat)
    requires Sorted(known, placed, order) && k <= |order|
    requires forall j :: 0 <= j < |order| ==>
               if j < k then Before(known, placed, order[j], id) else Before(known, placed, id, order[j])
    ensures Sorted(known, placed, order[..k] + [id] + order[k..])
  {
    var e := order[..k] + [id] + order[k..];
    forall i, j | 0 <= i < j < |e| ensures Before(known, placed, e[i], e[j]) {
      assert e[i] == if i < k then order[i] else if i == k then id else order[i - 1];
      assert e[j] == if j < k then order[j] else if j == k then id else order[j - 1];
    }
  }

  lemma {:induction false} SameOrder(known: map<nat, Layer>, placed: map<nat, nat>, known': map<nat, Layer>, placed': map<nat, nat>,
                  order: seq<nat>, clock: nat)
    requires Sorted(known, placed, order) && Earlier(placed, order, clock)
    requires forall i :: 0 <= i < |order| ==>
               ZOf(known', order[i]) == ZOf(known, order[i]) && Placed(placed', order[i]) == Placed(placed, order[i])
    ensures Sorted(known', placed', order) && Earlier(placed', order, clock)
  {
    forall i, j | 0 <= i < j < |order| ensures Before(known', placed', order[i], order[j]) {
      assert Before(known, placed, order[i], order[j]);
    }
  }

  lemma {:induction false} MembersIn(me: nat, s: Stack, id: nat)
    requires Members(me, s) && id in s.order
    ensures id in s.known && s.known[id].display == me && id < s.nextId
  {}

  lemma {:induction false} CreateKeeps(me: nat, p: Past)
    requires Inv(me, p)
    ensures Inv(me, Next(me, p, Create))
  {
    var s, n := p.s, Next(me, p, Create);
    var id := s.nextId;
    if id in s.order {
      MembersIn(me, s, id);
    }
    SameOrder(s.known, p.placed, n.s.known, n.placed, s.order, p.clock);
    EmplacedIs(n.s.known, n.placed, s.order, id, p.clock);
    forall i | 0 <= i < |n.s.order| ensures n.s.order[i] in n.s.known && n.s.known[n.s.order[i]].display == me {
      assert n.s.order[i] in n.s.order;
    }
  }

  /** The order without one layer, which the device then no longer knows. */
  lemma {:induction false} RemovedOrder(me: nat, p: Past, i: nat, known: map<nat, Layer>, order: seq<nat>)
    requires Inv(me, p) && i < |p.s.order| && known == p.s.known - {p.s.order[i]} && order == Without(p.s.order, i)
    ensures Sorted(known, p.placed, order) && Earlier(p.placed, order, p.clock)
    ensures forall x :: x in order <==> x in p.s.order && x != p.s.order[i]
  {
    var s := p.s;
    WithoutIs(s.known, p.placed, s.order, i);
    forall j | 0 <= j < |order| ensures order[j] in known && known[order[j]] == s.known[order[j]] && Placed(p.placed, order[j]) < p.clock {
      assert order[j] in order;
      var k :| 0 <= k < |s.order| && s.order[k] == order[j];
    }
    SameOrder(s.known, p.placed, known, p.placed, order, p.clock);
  }

  lemma {:induction false} DestroyKeeps(me: nat, p: Past, id: nat)
    requires Inv(me, p) && Enabled(me, p.s, Destroy(id))
    ensures Inv(me, Next(me, p, Destroy(id)))
  {
    if id in p.s.known {
      var s, n := p.s, Next(me, p, Destroy(id)).s;
      var i :| 0 <= i < |s.order| && s.order[i] == id;
      SeatIs(s, p.placed, i);
      RemovedOrder(me, p, i, n.known, n.order);
      assert forall j :: 0 <= j < |n.order| ==> n.order[j] in n.order;
    }
  }

  lemma {:induction false} SetZKeeps(me: nat, p: Past, id: nat, z: nat)
    requires Inv(me, p)
    ensures Inv(me, Next(me, p, SetZ(id, z)))
    ensures var (s, error) := UpdateLayerZ(p.s, id, z);
            (error == Fine <==> id in p.s.known && p.s.known[id].display == me) &&
            (error == Fine ==> ZOf(s.known, id) == z) && (error != Fine ==> s == p.s) &&
            (ZOf(p.s.known, id) == z ==> s == p.s)
  {
    var s, n := p.s, Next(me, p, SetZ(id, z));
    if id in s.order {
      MembersIn(me, s, id);
      var i :| 0 <= i < |s.order| && s.order[i] == id;
      SeatIs(s, p.placed, i);
      if ZOf(s.known, id) != z {
        Moved(me, p, i, z, n);
      }
    } else {
      SeatOfOther(s, id);
    }
  }

  lemma {:induction false} Moved(me: nat, p: Past, i: nat, z: nat, n: Past)
    requires Inv(me, p) && i < |p.s.order| && p.s.order[i] in p.s.known
    requires var id := p.s.order[i];
             var known := p.s.known[id := p.s.known[id].(z := z)];
             n == Past(Stack(known, Emplaced(known, Without(p.s.order, i), id), p.s.nextId, true), p.placed[id := p.clock], p.clock + 1)
    ensures Inv(me, n)
  {
    var s, id := p.s, p.s.order[i];
    var rest := Without(s.order, i);
    WithoutIs(s.known, p.placed, s.order, i);
    forall j | 0 <= j < |rest| ensures rest[j] in s.order && rest[j] != id && Placed(p.placed, rest[j]) < p.clock {
      assert rest[j] in rest;
    }
    SameOrder(s.known, p.placed, n.s.known, n.placed, rest, p.clock);
    EmplacedIs(n.s.known, n.placed, rest, id, p.clock);
    forall j | 0 <= j < |n.s.order| ensures n.s.order[j] in n.s.known && n.s.known[n.s.order[j]].display == me {
      assert n.s.order[j] in n.s.order;
    }
  }

  lemma {:induction false} OthersKeep(me: nat, p: Past, n: Past)
    requires Inv(me, p) && n.placed == p.placed && n.clock == p.clock && n.s.order == p.s.order && n.s.nextId >= p.s.nextId
    requires forall id :: id in n.s.known ==> id < n.s.nextId
    requires forall id :: id in p.s.known && p.s.known[id].display == me ==>
               id in n.s.known && n.s.known[id].display == me && n.s.known[id].z == p.s.known[id].z
    requires forall id :: id in n.s.known && n.s.known[id].display == me ==> id in p.s.known && p.s.known[id].display == me
    ensures Inv(me, n)
  {
    SameOrder(p.s.known, p.placed, n.s.known, n.placed, p.s.order, p.clock);
  }

  lemma {:induction false} OpKeeps(me: nat, p: Past, op: Op)
    requires Inv(me, p) && Enabled(me, p.s, op)
    ensures Inv(me, Next(me, p, op))
  {
    match op
    case Create => CreateKeeps(me, p);
    case Destroy(id) => DestroyKeeps(me, p, id);
    case SetZ(id, z) => SetZKeeps(me, p, id, z);
    case SetRegions(_, _, _) => OthersKeep(me, p, Next(me, p, op));
    case Elsewhere(_, _) => OthersKeep(me, p, Next(me, p, op));
  }

  /** The order over every run: the display's layers are exactly the live ones created on it, each once,
      sorted by Z and, among equal Z, by the time they were put there. */
  lemma {:induction false} EveryOrder(me: nat, p: Past, ops: seq<Op>)
    requires Inv(me, p) && Allowed(me, p, ops)
    ensures Inv(me, After(me, p, ops))
    decreases |ops|
  {
    if ops != [] {
      OpKeeps(me, p, ops[0]);
      EveryOrder(me, Next(me, p, ops[0]), ops[1..]);
    }
  }

  /** What a constructed display has: no layers, on a device whose layers all belong to others. */
  function Constructed(known: map<nat, Layer>, nextId: nat): Past {
    Past(Stack(known, [], nextId, false), map[], 0)
  }

  /** So it is from the constructor on. */
  lemma {:induction false} EveryDisplay(me: nat, known: map<nat, Layer>, nextId: nat, ops: seq<Op>)
    requires forall id :: id in known ==> id < nextId && known[id].display != me
    requires Allowed(me, Constructed(known, nextId), ops)
    ensures Inv(me, After(me, Constructed(known, nextId), ops))
  {
    EveryOrder(me, Constructed(known, nextId), ops);
  }

  /** Emplacing puts a layer above all others that do not lie higher. */
  lemma {:induction false} EmplacedAt(known: map<nat, Layer>, was: map<nat, Layer>, order: seq<nat>, id: nat, z: nat) returns (k: nat)
    requires ZOf(known, id) == z && forall i :: 0 <= i < |order| ==> ZOf(known, order[i]) == ZOf(was, order[i])
    ensures k <= |order| && Emplaced(known, order, id) == order[..k] + [id] + order[k..]
    ensures forall i :: 0 <= i < k ==> ZOf(was, order[i]) <= z
    ensures k < |order| ==> ZOf(was, order[k]) > z
  {
    k := UpperBound(known, order, z, 0);
  }

  /** From some place on, and only from there, the layers lie higher. */
  ghost predicate Splits(known: map<nat, Layer>, order: seq<nat>, k: nat, z: nat) {
    k <= |order| && forall i :: 0 <= i < |order| ==> (ZOf(known, order[i]) > z <==> k <= i)
  }

  lemma {:induction false} SplitsThere(known: map<nat, Layer>, placed: map<nat, nat>, order: seq<nat>, k: nat, z: nat)
    requires Sorted(known, placed, order) && k <= |order| && (k < |order| ==> ZOf(known, order[k]) > z)
    requires forall i :: 0 <= i < k ==> ZOf(known, order[i]) <= z
    ensures Splits(known, order, k, z)
  {
    forall i | k <= i < |order| ensures ZOf(known, order[i]) > z {
      SortedByZ(known, placed, order, k, i);
    }
  }

  /** A created layer is live, belongs to the display, lies at Z 0 above all others there, and was never used
      before; every other layer is as it was, in the same order. */
  lemma {:induction false} CreateMeans(me: nat, p: Past) returns (k: nat)
    requires Inv(me, p)
    ensures var s, n, id := p.s, Next(me, p, Create).s, p.s.nextId;
            id !in s.known && n.known == s.known[id := Layer(me, 0, [], 0)] && n.nextId == id + 1 && n.changed &&
            Splits(s.known, s.order, k, 0) && n.order == s.order[..k] + [id] + s.order[k..]
  {
    var s, n, id := p.s, Next(me, p, Create).s, p.s.nextId;
    forall i | 0 <= i < |s.order| ensures ZOf(n.known, s.order[i]) == ZOf(s.known, s.order[i]) {
      assert s.order[i] in s.known;
    }
    k := EmplacedAt(n.known, s.known, s.order, id, 0);
    SplitsThere(s.known, p.placed, s.order, k, 0);
  }

  /** destroyLayer fails exactly for a layer there is not. Otherwise the layer is gone from the device and from
      the display, and every other layer is as it was, in the same order. */
  lemma {:induction false} DestroyMeans(me: nat, p: Past, id: nat)
    requires Inv(me, p) && Enabled(me, p.s, Destroy(id))
    ensures var (n, error) := DestroyLayer(p.s, id);
            (error == BadLayer <==> id !in p.s.known) && (error == BadLayer ==> n == p.s) &&
            (error == Fine ==> n.known == p.s.known - {id} && n.changed && n.nextId == p.s.nextId && id !in n.order) &&
            (error == Fine ==> exists i :: 0 <= i < |p.s.order| && p.s.order[i] == id && n.order == p.s.order[..i] + p.s.order[i + 1..])
  {
    if id in p.s.known {
      var i :| 0 <= i < |p.s.order| && p.s.order[i] == id;
      SeatIs(p.s, p.placed, i);
      WithoutIs(p.s.known, p.placed, p.s.order, i);
      assert DestroyLayer(p.s, id).0.order == Without(p.s.order, i);
    }
  }

  /** A layer that gets a new Z goes above all others of that Z; no other layer changes or moves. */
  lemma {:induction false} SetZMeans(me: nat, p: Past, i: nat, z: nat) returns (k: nat)
    requires Inv(me, p) && i < |p.s.order| && ZOf(p.s.known, p.s.order[i]) != z
    ensures var s, id := p.s, p.s.order[i];
            var (n, error) := UpdateLayerZ(s, id, z);
            var rest := s.order[..i] + s.order[i + 1..];
            id in s.known && error == Fine && n.known == s.known[id := s.known[id].(z := z)] && n.changed && n.nextId == s.nextId &&
            Splits(s.known, rest, k, z) && n.order == rest[..k] + [id] + rest[k..]
  {
    var s, id := p.s, p.s.order[i];
    MembersIn(me, s, id);
    SeatIs(s, p.placed, i);
    k := MovedMeans(s, p.placed, i, id, z, s.known[id := s.known[id].(z := z)]);
  }

  lemma {:induction false} MovedMeans(s: Stack, placed: map<nat, nat>, i: nat, id: nat, z: nat, known: map<nat, Layer>) returns (k: nat)
    requires Sorted(s.known, placed, s.order) && i < |s.order| && s.order[i] == id && id in s.known
    requires known == s.known[id := s.known[id].(z := z)]
    ensures var rest := Without(s.order, i);
            Splits(s.known, rest, k, z) && Emplaced(known, rest, id) == rest[..k] + [id] + rest[k..]
  {
    var rest := Without(s.order, i);
    WithoutIs(s.known, placed, s.order, i);
    forall j | 0 <= j < |rest| ensures ZOf(known, rest[j]) == ZOf(s.known, rest[j]) {
      assert rest[j] in rest;
    }
    k := EmplacedAt(known, s.known, rest, id, z);
    SplitsThere(s.known, placed, rest, k, z);
  }

  // ---------- HWC1 numbers ----------

  lemma {:induction false} PrefixSize(order: seq<nat>, n: nat, s: set<nat>)
    requires n <= |order| && forall i, j :: 0 <= i < j < |order| ==> order[i] != order[j]
    requires forall x :: x in s <==> x in order[..n]
    ensures |s| == n
    decreases n
  {
    if n == 0 {
      assert s == {};
    } else {
      assert order[..n] == order[..n - 1] + [order[n - 1]];
      PrefixSize(order, n - 1, s - {order[n - 1]});
    }
  }

  lemma {:induction false} RankOf(s: Stack, placed: map<nat, nat>, i: nat)
    requires Sorted(s.known, placed, s.order) && i < |s.order|
    ensures |set x | x in s.order && Before(s.known, placed, x, s.order[i])| == i
  {
    var below := set x | x in s.order && Before(s.known, placed, x, s.order[i]);
    SortedIsDistinct(s.known, placed, s.order);
    forall x ensures x in below <==> x in s.order[..i] {
      if x in below {
        var j :| 0 <= j < |s.order| && s.order[j] == x;
        SortedNotAfter(s.known, placed, s.order, i, j);
      }
    }
    PrefixSize(s.order, i, below);
  }

  /** assignHwc1LayerIds, after any run: the numbers are a bijection from the display's layers onto
      0 to n-1, and a layer's number is how many of the display's layers lie below it. */
  lemma {:induction false} NumbersAreRanks(me: nat, p: Past, ids: map<nat, nat>)
    requires Inv(me, p)
    requires ids == map i | 0 <= i < |p.s.order| :: p.s.order[i]
    ensures forall id :: id in p.s.known && p.s.known[id].display == me ==>
              var below := |set x | x in p.s.order && Before(p.s.known, p.placed, x, id)|;
              below in ids && ids[below] == id
    ensures forall i :: i in ids ==> i < |p.s.order| && ids[i] in p.s.known && p.s.known[ids[i]].display == me
    ensures forall i, j :: i in ids && j in ids ==>
              (ids[i] == ids[j] ==> i == j) && (ZOf(p.s.known, ids[i]) < ZOf(p.s.known, ids[j]) ==> i < j)
  {
    var s := p.s;
    forall id | id in s.known && s.known[id].display == me
      ensures var below := |set x | x in s.order && Before(s.known, p.placed, x, id)|; below in ids && ids[below] == id
    {
      var i :| 0 <= i < |s.order| && s.order[i] == id;
      RankOf(s, p.placed, i);
    }
    SortedIsDistinct(s.known, p.placed, s.order);
    forall i, j | i in ids && j in ids
      ensures (ids[i] == ids[j] ==> i == j) && (ZOf(s.known, ids[i]) < ZOf(s.known, ids[j]) ==> i < j)
    {
      SortedByZ(s.known, p.placed, s.order, j, i);
    }
  }

  // ---------- The arena ----------

  predicate Inside(rects: seq<Rect>, r: Region) {
    r.rects.Some? && r.rects.value + r.numRects <= |rects|
  }

  /** What a region read from the arena says. */
  function Content(rects: seq<Rect>, r: Region): seq<Rect>
    requires r.numRects > 0 ==> Inside(rects, r)
  {
    if r.numRects == 0 then [] else rects[r.rects.value..r.rects.value + r.numRects]
  }

  predicate Apart(a: Region, b: Region) {
    a.numRects > 0 && b.numRects > 0 && a.rects.Some? && b.rects.Some? ==> a.rects.value + a.numRects <= b.rects.value
  }

  lemma {:induction false} RegionsPrefix(known: map<nat, Layer>, order: seq<nat>, k: nat)
    requires k <= |order|
    ensures Regions(known, order)[..k] == Regions(known, order[..k])
    decreases |order| - k
  {
    if k < |order| {
      RegionsPrefix(known, order, k + 1);
      OneMore(known, order, k);
      var more := Regions(known, order[..k + 1]);
      assert Regions(known, order)[..k] == Regions(known, order)[..k + 1][..k] == more[..k] == Regions(known, order[..k]);
    } else {
      assert order[..k] == order;
    }
  }

  lemma {:induction false} FlatPrefix(known: map<nat, Layer>, order: seq<nat>, k: nat)
    requires k <= |order|
    ensures Flat(known, order[..k]) <= Flat(known, order)
    decreases |order| - k
  {
    if k < |order| {
      FlatPrefix(known, order, k + 1);
      OneMore(known, order, k);
    } else {
      assert order[..k] == order;
    }
  }

  lemma {:induction false} PartOfPrefix(s: seq<Rect>, t: seq<Rect>, u: seq<Rect>, v: seq<Rect>)
    requires t <= s && t == u + v
    ensures |u| + |v| <= |s| && s[|u|..|u| + |v|] == v
  {
    assert s[..|t|] == t;
    assert s[|u|..|u| + |v|] == s[..|t|][|u|..|u| + |v|];
  }

  lemma {:induction false} RegionServes(known: map<nat, Layer>, order: seq<nat>, i: nat, at: nat, v: seq<Rect>)
    requires i < |order| && at == Used(known, order[..i]) && v == Visible(known, order[i])
    ensures Regions(known, order)[i] == Region(|v|, if v == [] then None else Some(at))
    ensures at + |v| <= Used(known, order) && Flat(known, order)[at..at + |v|] == v
  {
    OneMore(known, order, i);
    FlatPrefix(known, order, i + 1);
    PartOfPrefix(Flat(known, order), Flat(known, order[..i + 1]), Flat(known, order[..i]), v);
    RegionsPrefix(known, order, i + 1);
    assert Regions(known, order)[i] == Regions(known, order)[..i + 1][i];
  }

  lemma {:induction false} UsedInOrder(known: map<nat, Layer>, order: seq<nat>, i: nat, j: nat)
    requires i < j < |order|
    ensures Used(known, order[..i]) + |Visible(known, order[i])| <= Used(known, order[..j])
  {
    assert order[..j][..i + 1] == order[..i + 1] && order[..i + 1][..i] == order[..i];
    UsedGrows(known, order[..j], i + 1);
  }

  lemma {:induction false} LayerServed(known: map<nat, Layer>, order: seq<nat>, i: nat, rest: seq<Rect>, r: Region)
    requires i < |order| && r == Regions(known, order)[i]
    ensures var rects, v := Flat(known, order) + rest, Visible(known, order[i]);
            r.numRects == |v| && (v != [] ==> Inside(rects, r)) && Content(rects, r) == v
  {
    var at, v := Used(known, order[..i]), Visible(known, order[i]);
    RegionServes(known, order, i, at, v);
    assert (Flat(known, order) + rest)[at..at + |v|] == Flat(known, order)[at..at + |v|];
  }

  lemma {:induction false} RegionsApart(known: map<nat, Layer>, order: seq<nat>, i: nat, j: nat)
    requires i < j <= |order|
    ensures Apart(Regions(known, order)[i], if j < |order| then Regions(known, order)[j] else Region(1, Some(Used(known, order))))
  {
    RegionServes(known, order, i, Used(known, order[..i]), Visible(known, order[i]));
    if j < |order| {
      RegionServes(known, order, j, Used(known, order[..j]), Visible(known, order[j]));
      UsedInOrder(known, order, i, j);
    }
  }

  /** What is left over is the sum of the layers' damaged rectangles. */
  lemma {:induction false} SpareIs(known: map<nat, Layer>, order: seq<nat>, i: nat)
    requires i < |order|
    ensures Spare(known, []) == 0
    ensures Spare(known, order[..i + 1]) == Spare(known, order[..i]) + if order[i] in known then known[order[i]].damage else 0
  {
    assert order[..i + 1][..i] == order[..i];
  }

  /** The arena is always enough. After prepare, every region of a layer and of the framebuffer target is
      inside the arena and holds its rectangles, a null pointer stands only for an empty region, the
      ranges follow one another without overlap, and one rectangle for each damaged one is left over. */
  lemma {:induction false} ArenaServes(known: map<nat, Layer>, order: seq<nat>, frame: Rect, rects: seq<Rect>, hwLayers: seq<Region>)
    requires rects == Flat(known, order) + [frame] + seq(Spare(known, order), i => NO_RECT)
    requires hwLayers == Regions(known, order) + [Region(1, Some(Used(known, order)))]
    ensures |hwLayers| == |order| + 1
    ensures forall i :: 0 <= i <= |order| ==>
              var v := if i == |order| then [frame] else if order[i] in known then known[order[i]].visible else [];
              hwLayers[i].numRects == |v| && (v != [] ==> Inside(rects, hwLayers[i])) && Content(rects, hwLayers[i]) == v
    ensures forall i, j :: 0 <= i < j <= |order| ==> Apart(hwLayers[i], hwLayers[j])
    ensures |rects| == 1 + Used(known, order) + Spare(known, order)
  {
    var rest := [frame] + seq(Spare(known, order), i => NO_RECT);
    assert rects == Flat(known, order) + rest;
    forall i | 0 <= i < |order|
      ensures var v := Visible(known, order[i]);
              hwLayers[i].numRects == |v| && (v != [] ==> Inside(rects, hwLayers[i])) && Content(rects, hwLayers[i]) == v
    {
      LayerServed(known, order, i, rest, hwLayers[i]);
    }
    forall i, j | 0 <= i < j <= |order| ensures Apart(hwLayers[i], hwLayers[j]) {
      RegionsApart(known, order, i, j);
    }
  }
}
