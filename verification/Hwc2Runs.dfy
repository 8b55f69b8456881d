/** Runs of the HWC2 adapter: how often the device can change composition types, and what a successful
    present means. */
module Hwc2Runs {
  import opened Options
  import opened Sequences
  import opened Hwc2Adapter

  // ---------- Steps ----------

  /** The calls of a client, in any order and on any display; a validate carries the device's answers. */
  datatype Step =
    | ValidateStep(d: nat, first: seq<Contents>, second: seq<Contents>)
    | AcceptStep(d: nat)
    | PresentStep(d: nat)
    | RetypeStep(id: nat, kind: Composition)                 // setLayerCompositionType
    | AttributeStep(id: nat, alpha: real, noBackground: bool)
    | TransformStep(d: nat, on: bool)
    | CreateStep(d: nat, p: nat)
    | DestroyStep(d: nat, p: nat)
    | MoveStep(d: nat, p: nat, q: nat)                       // updateLayerZ

  /** The adapter with three counts of its past: type changes accepted, types given by the client (at
      creation or later), and the layers the client has retyped since the last prepare. */
  datatype Run = Run(a: Adapter, accepted: nat, given: nat, retyped: set<nat>)

  function Inserted(s: seq<nat>, p: nat, id: nat): seq<nat>
    requires p <= |s|
  {
    s[..p] + [id] + s[p..]
  }

  function Reordered(a: Adapter, d: nat, order: seq<nat>): Adapter
    requires d < |a.displays|
  {
    a.(displays := a.displays[d := a.displays[d].(order := order)])
  }

  ghost predicate Enabled(a: Adapter, s: Step) {
    match s
    case ValidateStep(d, first, second) => d < |a.displays| && Prepareable(a) && Answered(a, first, second)
    case AcceptStep(d) => d < |a.displays|
    case PresentStep(d) => d < |a.displays|
    case RetypeStep(id, _) => id in a.layers
    case AttributeStep(id, _, _) => id in a.layers
    case TransformStep(d, _) => d < |a.displays|
    case CreateStep(d, p) => d < |a.displays| && p <= |a.displays[d].order|
    case DestroyStep(d, p) => d < |a.displays| && p < |a.displays[d].order|
    case MoveStep(d, p, q) => d < |a.displays| && p < |a.displays[d].order| && q < |a.displays[d].order|
  }

  function Pending(d: Display): Changes {
    match d.changes
    case None => map[]
    case Some(m) => m
  }

  function Affected(layers: map<nat, Layer>, m: Changes): set<nat> {
    set id | id in m && id in layers
  }

  ghost function Next(r: Run, s: Step): Run
    requires Enabled(r.a, s)
  {
    var a := r.a;
    match s
    case ValidateStep(d, first, second) =>
      r.(a := Validate(a, d, first, second), retyped := if a.displays[d].changes.Some? then r.retyped else {})
    case AcceptStep(d) =>
      r.(a := Accept(a, d), accepted := r.accepted + |Affected(a.layers, Pending(a.displays[d]))|)
    case PresentStep(d) => r.(a := Present(a, d).0)
    case RetypeStep(id, kind) =>
      Run(a.(layers := a.layers[id := a.layers[id].(kind := kind)]), r.accepted, r.given + 1, r.retyped + {id})
    case AttributeStep(id, alpha, noBackground) =>
      r.(a := a.(layers := a.layers[id := a.layers[id].(alpha := alpha, noBackground := noBackground)]))
    case TransformStep(d, on) => r.(a := a.(displays := a.displays[d := a.displays[d].(transform := on)]))
    case CreateStep(d, p) =>
      var b := Reordered(a, d, Inserted(a.displays[d].order, p, a.nextId));
      r.(a := b.(layers := a.layers[a.nextId := Layer(d, Invalid, 0.0, false)], nextId := a.nextId + 1),
         given := r.given + 1)
    case DestroyStep(d, p) =>
      var order := a.displays[d].order;
      r.(a := Reordered(a, d, Without(order, p)).(layers := a.layers - {order[p]}))
    case MoveStep(d, p, q) =>
      var order := a.displays[d].order;
      r.(a := Reordered(a, d, Inserted(Without(order, p), q, order[p])))
  }

  ghost predicate Allowed(r: Run, steps: seq<Step>)
    decreases |steps|
  {
    steps == [] || (Enabled(r.a, steps[0]) && Allowed(Next(r, steps[0]), steps[1..]))
  }

  ghost function After(r: Run, steps: seq<Step>): Run
    requires Allowed(r, steps)
    decreases |steps|
  {
    if steps == [] then r else After(Next(r, steps[0]), steps[1..])
  }

  // ---------- Whose layer is whose ----------

  ghost predicate Distinct(s: seq<nat>) {
    forall i, j :: 0 <= i < j < |s| ==> s[i] != s[j]
  }

  ghost predicate Own(layers: map<nat, Layer>, d: nat, order: seq<nat>) {
    forall i :: 0 <= i < |order| ==> order[i] in layers && layers[order[i]].display == d
  }

  ghost predicate OwnChanges(a: Adapter, d: nat, m: Changes) {
    forall id :: id in m ==> id < a.nextId && (m[id] == Client || m[id] == Device) &&
                             (id in a.layers ==> a.layers[id].display == d)
  }

  ghost predicate OwnSlots(a: Adapter, d: nat, slots: seq<nat>) {
    forall i :: 0 <= i < |slots| ==> slots[i] < a.nextId && (slots[i] in a.layers ==> a.layers[slots[i]].display == d)
  }

  ghost predicate Proper(a: Adapter, d: nat)
    requires d < |a.displays|
  {
    var x := a.displays[d];
    Distinct(x.order) && Own(a.layers, d, x.order) && OwnChanges(a, d, Pending(x)) && OwnSlots(a, d, x.slots)
  }

  ghost predicate Housed(a: Adapter) {
    forall id :: id in a.layers ==>
      id < a.nextId && a.layers[id].display < |a.displays| && id in a.displays[a.layers[id].display].order
  }

  ghost predicate Owned(a: Adapter) {
    Housed(a) && forall d :: 0 <= d < |a.displays| ==> Proper(a, d)
  }

  // ---------- Generated changes ----------

  /** generateChanges, layer by layer. */
  lemma {:induction false} GenerateIs(layers: map<nat, Layer>, slots: seq<nat>, contents: seq<Slot>)
    requires Known(slots, layers) && |slots| <= |contents| && Distinct(slots)
    ensures var m := Generate(layers, slots, contents);
            (forall id :: id in m ==> id in slots && (m[id] == Client || m[id] == Device)) &&
            (forall i :: 0 <= i < |slots| ==>
               (slots[i] in m <==> Wanted(contents[i].kind).Some? && Wanted(contents[i].kind).value != layers[slots[i]].kind) &&
               (slots[i] in m ==> Wanted(contents[i].kind) == Some(m[slots[i]])))
  {
    if slots != [] {
      var n := |slots| - 1;
      GenerateIs(layers, slots[..n], contents);
      assert forall i :: 0 <= i < n ==> slots[..n][i] == slots[i];
    }
  }

  function Rank(k: Composition): (r: nat)
    ensures r <= 2
  {
    if k == Client then 0 else if k == Device then 1 else 2
  }

  ghost predicate Lowers(layers: map<nat, Layer>, m: Changes) {
    forall id :: id in m && id in layers ==> Rank(m[id]) < Rank(layers[id].kind)
  }

  /** A layer the adapter composes on the client already never comes back as an overlay, whether the
      device was asked once or twice. */
  lemma {:induction false} ClientStays(sent: Contents, first: Contents, second: Contents, i: nat)
    requires Honours(sent, first) && Honours(Demote(first), second) && i < |sent| - 1
    requires sent[i] == Slot(FRAMEBUFFER, true)
    ensures first[i].kind == FRAMEBUFFER && second[i].kind == FRAMEBUFFER
  {
    assert Demote(first)[i] == first[i];
  }

  /** Whatever the device answers, each change it asks for lowers the rank of the layer's type. */
  lemma {:induction false} ChangesLower(a: Adapter, d: nat, sent: Contents, first: Contents, second: Contents, final: Contents)
    requires d < |a.displays| && Proper(a, d) && Known(a.displays[d].order, a.layers)
    requires sent == Request(a.displays[d], a.layers, a.minor) && Honours(sent, first) && Honours(Demote(first), second)
    requires final == first || final == second
    ensures Lowers(a.layers, Generate(a.layers, a.displays[d].order, final))
  {
    var order := a.displays[d].order;
    GenerateIs(a.layers, order, final);
    var m := Generate(a.layers, order, final);
    forall id | id in m ensures Rank(m[id]) < Rank(a.layers[id].kind) {
      var i :| 0 <= i < |order| && order[i] == id;
      assert sent[i] == ApplyCompositionType(a.layers[id], a.displays[d].transform, a.minor);
      if a.layers[id].kind == Client {
        ClientStays(sent, first, second, i);
      }
    }
  }

  // ---------- The potential ----------

  /** How many more type changes a layer can take part in. */
  function Weight(layers: map<nat, Layer>, m: Changes, id: nat): nat {
    if id !in layers then 0
    else if id in m && 1 + Rank(m[id]) > Rank(layers[id].kind) then 1 + Rank(m[id])
    else Rank(layers[id].kind)
  }

  function Sum(layers: map<nat, Layer>, m: Changes, order: seq<nat>): nat {
    if order == [] then 0 else Sum(layers, m, order[..|order| - 1]) + Weight(layers, m, order[|order| - 1])
  }

  ghost function Share(a: Adapter, d: nat): nat
    requires d < |a.displays|
  {
    Sum(a.layers, Pending(a.displays[d]), a.displays[d].order)
  }

  ghost function Total(a: Adapter, n: nat): nat
    requires n <= |a.displays|
  {
    if n == 0 then 0 else Total(a, n - 1) + Share(a, n - 1)
  }

  function Count(order: seq<nat>, m: Changes): nat {
    if order == [] then 0 else Count(order[..|order| - 1], m) + if order[|order| - 1] in m then 1 else 0
  }

  lemma {:induction false} SumSplit(layers: map<nat, Layer>, m: Changes, s: seq<nat>, t: seq<nat>)
    ensures Sum(layers, m, s + t) == Sum(layers, m, s) + Sum(layers, m, t)
    decreases |t|
  {
    if t == [] {
      assert s + t == s;
    } else {
      var n := |t| - 1;
      assert (s + t)[..|s| + n] == s + t[..n] && (s + t)[|s| + n] == t[n];
      SumSplit(layers, m, s, t[..n]);
    }
  }

  lemma {:induction false} SumOne(layers: map<nat, Layer>, m: Changes, id: nat)
    ensures Sum(layers, m, [id]) == Weight(layers, m, id)
  {
    assert [id][..0] == [];
  }

  lemma {:induction false} SumThree(layers: map<nat, Layer>, m: Changes, s: seq<nat>, id: nat, t: seq<nat>)
    ensures Sum(layers, m, s + [id] + t) == Sum(layers, m, s) + Weight(layers, m, id) + Sum(layers, m, t)
  {
    SumSplit(layers, m, s + [id], t);
    SumSplit(layers, m, s, [id]);
    SumOne(layers, m, id);
  }

  lemma {:induction false} SumInserted(layers: map<nat, Layer>, m: Changes, s: seq<nat>, p: nat, id: nat)
    requires p <= |s|
    ensures Sum(layers, m, Inserted(s, p, id)) == Sum(layers, m, s) + Weight(layers, m, id)
  {
    var before, after := s[..p], s[p..];
    SumThree(layers, m, before, id, after);
    SumSplit(layers, m, before, after);
    assert before + after == s;
  }

  lemma {:induction false} SumWithout(layers: map<nat, Layer>, m: Changes, s: seq<nat>, p: nat)
    requires p < |s|
    ensures Sum(layers, m, s) == Sum(layers, m, Without(s, p)) + Weight(layers, m, s[p])
  {
    SumInserted(layers, m, Without(s, p), p, s[p]);
    assert Inserted(Without(s, p), p, s[p]) == s;
  }

  lemma {:induction false} SumNotMore(l: map<nat, Layer>, m: Changes, l': map<nat, Layer>, m': Changes, order: seq<nat>)
    requires forall i :: 0 <= i < |order| ==> Weight(l', m', order[i]) <= Weight(l, m, order[i])
    ensures Sum(l', m', order) <= Sum(l, m, order)
    decreases |order|
  {
    if order != [] {
      var n := |order| - 1;
      assert forall i :: 0 <= i < n ==> order[..n][i] == order[i];
      SumNotMore(l, m, l', m', order[..n]);
    }
  }

  lemma {:induction false} SumAccepted(l: map<nat, Layer>, m: Changes, order: seq<nat>)
    requires Known(order, l)
    ensures Sum(Retyped(l, m), map[], order) + Count(order, m) <= Sum(l, m, order)
    decreases |order|
  {
    if order != [] {
      var n := |order| - 1;
      assert forall i :: 0 <= i < n ==> order[..n][i] == order[i];
      SumAccepted(l, m, order[..n]);
    }
  }

  /** A layer that takes a new type from the client can bring two more changes. */
  lemma {:induction false} SumRetyped(l: map<nat, Layer>, m: Changes, l': map<nat, Layer>, order: seq<nat>, id: nat)
    requires Distinct(order) && Weight(l', m, id) <= 2
    requires forall i :: 0 <= i < |order| && order[i] != id ==> Weight(l', m, order[i]) <= Weight(l, m, order[i])
    ensures Sum(l', m, order) <= Sum(l, m, order) + 2
    ensures id !in order ==> Sum(l', m, order) <= Sum(l, m, order)
    decreases |order|
  {
    if order != [] {
      var n := |order| - 1;
      assert forall i :: 0 <= i < n ==> order[..n][i] == order[i];
      SumRetyped(l, m, l', order[..n], id);
      if order[n] == id {
        assert id !in order[..n];
      }
    }
  }

  lemma {:induction false} TotalShift(a: Adapter, b: Adapter, d: nat, more: int, n: nat)
    requires |b.displays| == |a.displays| && n <= |a.displays|
    requires forall e :: 0 <= e < n && e != d ==> Share(b, e) <= Share(a, e)
    requires d < n ==> Share(b, d) <= Share(a, d) + more
    ensures Total(b, n) <= Total(a, n) + if d < n then more else 0
    decreases n
  {
    if n > 0 {
      TotalShift(a, b, d, more, n - 1);
    }
  }

  lemma {:induction false} WeightsAreSmall(layers: map<nat, Layer>, m: Changes, order: seq<nat>)
    requires forall id :: id in m ==> m[id] == Client || m[id] == Device
    ensures Sum(layers, m, order) <= 2 * |order|
    decreases |order|
  {
    if order != [] {
      WeightsAreSmall(layers, m, order[..|order| - 1]);
    }
  }

  /** The changes of known layers are those of the display's own. */
  lemma {:induction false} CountIsKnown(order: seq<nat>, m: Changes, found: set<nat>)
    requires Distinct(order) && forall id :: id in found <==> id in order && id in m
    ensures Count(order, m) == |found|
    decreases |order|
  {
    if order == [] {
      assert found == {};
    } else {
      var n := |order| - 1;
      assert order == order[..n] + [order[n]];
      CountIsKnown(order[..n], m, found - {order[n]});
    }
  }

  // ---------- The answers and the types agree ----------

  /** The type a layer has once the pending changes are accepted. */
  function Coming(layers: map<nat, Layer>, m: Changes, id: nat): Composition
    requires id in layers
  {
    if id in m then m[id] else layers[id].kind
  }

  ghost predicate Agree(layers: map<nat, Layer>, retyped: set<nat>, slots: seq<nat>, contents: Contents, m: Changes) {
    |contents| == |slots| + 1 &&
    forall i :: 0 <= i < |slots| && slots[i] in layers && slots[i] !in retyped && Wanted(contents[i].kind).Some? ==>
      Wanted(contents[i].kind) == Some(Coming(layers, m, slots[i]))
  }

  ghost predicate AllAgree(a: Adapter, retyped: set<nat>) {
    forall d :: 0 <= d < |a.displays| && a.displays[d].changes.Some? ==>
      var x := a.displays[d]; Agree(a.layers, retyped, x.slots, x.contents, Pending(x))
  }

  // ---------- Every step keeps the books ----------

  ghost predicate Inv(r: Run, budget: nat) {
    Owned(r.a) && AllAgree(r.a, r.retyped) && r.accepted + Total(r.a, |r.a.displays|) <= budget + 2 * r.given
  }

  /** One display after prepareAllDisplays. */
  lemma {:induction false} PreparedDisplay(a: Adapter, d: nat, sent: Contents, first: Contents, second: Contents, final: Contents)
    requires d < |a.displays| && Proper(a, d) && Housed(a) && Known(a.displays[d].order, a.layers)
    requires sent == Request(a.displays[d], a.layers, a.minor) && Honours(sent, first) && Honours(Demote(first), second)
    requires final == first || final == second
    ensures var order := a.displays[d].order;
            var m := Generate(a.layers, order, final);
            OwnChanges(a, d, m) && Sum(a.layers, m, order) <= Share(a, d) && Agree(a.layers, {}, order, final, m)
  {
    var x := a.displays[d];
    var m := Generate(a.layers, x.order, final);
    GenerateIs(a.layers, x.order, final);
    ChangesLower(a, d, sent, first, second, final);
    SumNotMore(a.layers, Pending(x), a.layers, m, x.order);
  }

  lemma {:induction false} PrepareAllIs(a: Adapter, d: nat, first: seq<Contents>, second: seq<Contents>, b: Adapter, final: Contents)
    requires d < |a.displays| && Prepareable(a) && Answered(a, first, second) && b == PrepareAll(a, first, second)
    requires final == Final(first, second)[d]
    ensures Known(a.displays[d].order, a.layers) && Honours(Request(a.displays[d], a.layers, a.minor), first[d])
    ensures Honours(Demote(first[d]), second[d]) && (final == first[d] || final == second[d])
    ensures |b.displays| == |a.displays| && b.displays[d] == Prepared(a.displays[d], a.layers, final)
  {
    assert Requests(a)[d] == Request(a.displays[d], a.layers, a.minor);
  }

  lemma {:induction false} PendingIs(a: Adapter, d: nat, first: seq<Contents>, second: seq<Contents>, b: Adapter,
                                     final: Contents, x: Display)
    requires d < |a.displays| && Prepareable(a) && Answered(a, first, second) && b == PrepareAll(a, first, second)
    requires final == Final(first, second)[d] && x == a.displays[d]
    ensures Known(x.order, a.layers) && |final| == |x.order| + 1
    ensures b.layers == a.layers && Pending(b.displays[d]) == Generate(a.layers, x.order, final)
  {
    PrepareAllIs(a, d, first, second, b, final);
  }

  lemma {:induction false} PreparedIsProper(a: Adapter, d: nat, b: Adapter, m: Changes)
    requires d < |a.displays| && Proper(a, d) && Housed(a) && OwnChanges(a, d, m) && |b.displays| == |a.displays|
    requires b.layers == a.layers && b.nextId == a.nextId && b.displays[d].changes == Some(m)
    requires b.displays[d].slots == b.displays[d].order == a.displays[d].order
    ensures Proper(b, d)
  {
    forall i | 0 <= i < |a.displays[d].order| ensures a.displays[d].order[i] < a.nextId {
      assert a.displays[d].order[i] in a.layers;
    }
  }

  lemma {:induction false} PreparedDisplays(a: Adapter, d: nat, first: seq<Contents>, second: seq<Contents>, b: Adapter)
    requires d < |a.displays| && Owned(a) && Prepareable(a) && Answered(a, first, second) && b == PrepareAll(a, first, second)
    ensures Proper(b, d) && Share(b, d) <= Share(a, d)
    ensures Agree(b.layers, {}, b.displays[d].slots, b.displays[d].contents, Pending(b.displays[d]))
  {
    var x, final := a.displays[d], Final(first, second)[d];
    PrepareAllIs(a, d, first, second, b, final);
    assert Proper(a, d);
    PreparedDisplay(a, d, Request(x, a.layers, a.minor), first[d], second[d], final);
    PreparedIsProper(a, d, b, Generate(a.layers, x.order, final));
  }

  lemma {:induction false} PrepareAllKeeps(a: Adapter, first: seq<Contents>, second: seq<Contents>, b: Adapter)
    requires Owned(a) && Prepareable(a) && Answered(a, first, second) && b == PrepareAll(a, first, second)
    ensures AllAgree(b, {}) && Total(b, |b.displays|) <= Total(a, |a.displays|)
    ensures forall d :: 0 <= d < |b.displays| ==> Proper(b, d)
  {
    forall d | 0 <= d < |b.displays|
      ensures Proper(b, d) && Share(b, d) <= Share(a, d) &&
              Agree(b.layers, {}, b.displays[d].slots, b.displays[d].contents, Pending(b.displays[d]))
    {
      PreparedDisplays(a, d, first, second, b);
    }
    TotalShift(a, b, |b.displays|, 0, |b.displays|);
  }

  lemma {:induction false} ValidateKeeps(r: Run, budget: nat, d: nat, first: seq<Contents>, second: seq<Contents>)
    requires Inv(r, budget) && Enabled(r.a, ValidateStep(d, first, second))
    ensures Inv(Next(r, ValidateStep(d, first, second)), budget)
  {
    if r.a.displays[d].changes.None? {
      var b := PrepareAll(r.a, first, second);
      PrepareAllKeeps(r.a, first, second, b);
      assert Housed(b);
    }
  }

  /** What prepareAllDisplays leaves on a display, for each of its layers: an answer HWC_FRAMEBUFFER asks a
      layer that is not Client to become Client, HWC_OVERLAY one that is not Device to become Device, and no
      other answer asks for anything; no other layer is asked. */
  lemma {:induction false} ChangesMean(a: Adapter, first: seq<Contents>, second: seq<Contents>, d: nat, i: nat)
    requires d < |a.displays| && Prepareable(a) && Answered(a, first, second)
    requires Distinct(a.displays[d].order) && i < |a.displays[d].order|
    ensures var x, answer := PrepareAll(a, first, second).displays[d], Final(first, second)[d];
            x.changes.Some? && x.contents == answer && x.slots == a.displays[d].order == x.order && |answer| == |x.order| + 1 &&
            (forall id :: id in x.changes.value ==> id in x.order)
    ensures var m, answer := Pending(PrepareAll(a, first, second).displays[d]), Final(first, second)[d];
            var id := a.displays[d].order[i];
            match answer[i].kind
            case FRAMEBUFFER => if a.layers[id].kind == Client then id !in m else id in m && m[id] == Client
            case OVERLAY => if a.layers[id].kind == Device then id !in m else id in m && m[id] == Device
            case BACKGROUND => id !in m
            case FRAMEBUFFER_TARGET => id !in m
            case SIDEBAND => id !in m
            case CURSOR_OVERLAY => id !in m
  {
    var b, final := PrepareAll(a, first, second), Final(first, second)[d];
    PendingIs(a, d, first, second, b, final, a.displays[d]);
    PrepareAllIs(a, d, first, second, b, final);
    GenerateIs(a.layers, a.displays[d].order, final);
  }

  /** Every change a prepare generates is for a layer there is, so accepting right after a validate that
      reports changes accepts them all. */
  lemma {:induction false} ChangesAreLive(a: Adapter, first: seq<Contents>, second: seq<Contents>, d: nat)
    requires d < |a.displays| && Owned(a) && Prepareable(a) && Answered(a, first, second)
    ensures var b := PrepareAll(a, first, second);
            Affected(b.layers, Pending(b.displays[d])) == Pending(b.displays[d]).Keys
  {
    var b, final := PrepareAll(a, first, second), Final(first, second)[d];
    var x := a.displays[d];
    assert Proper(a, d);
    PendingIs(a, d, first, second, b, final, x);
    GeneratedAreLive(a.layers, x.order, final);
  }

  lemma {:induction false} GeneratedAreLive(layers: map<nat, Layer>, order: seq<nat>, final: Contents)
    requires Known(order, layers) && |order| <= |final| && Distinct(order)
    ensures Affected(layers, Generate(layers, order, final)) == Generate(layers, order, final).Keys
  {
    GenerateIs(layers, order, final);
    forall id | id in Generate(layers, order, final) ensures id in layers {
      var i :| 0 <= i < |order| && order[i] == id;
    }
  }

  /** Accepting costs a display what it brings. */
  lemma {:induction false} AcceptCosts(a: Adapter, d: nat, m: Changes)
    requires Owned(a) && d < |a.displays| && a.displays[d].changes == Some(m)
    ensures Total(Accept(a, d), |a.displays|) + |Affected(a.layers, m)| <= Total(a, |a.displays|)
  {
    var b := Accept(a, d);
    var found := Affected(a.layers, m);
    assert Proper(a, d);
    CountIsKnown(a.displays[d].order, m, found);
    SumAccepted(a.layers, m, a.displays[d].order);
    forall e | 0 <= e < |a.displays| && e != d ensures Share(b, e) <= Share(a, e) {
      assert Proper(a, e);
      SumNotMore(a.layers, Pending(a.displays[e]), b.layers, Pending(a.displays[e]), a.displays[e].order);
    }
    TotalShift(a, b, d, -|found|, |a.displays|);
  }

  lemma {:induction false} AcceptKeeps(r: Run, budget: nat, d: nat)
    requires Inv(r, budget) && d < |r.a.displays|
    ensures Inv(Next(r, AcceptStep(d)), budget)
  {
    var a := r.a;
    if a.displays[d].changes.Some? {
      AcceptCosts(a, d, Pending(a.displays[d]));
      AcceptOwns(a, d);
      AcceptAgrees(a, r.retyped, d);
    }
  }

  lemma {:induction false} AcceptOwns(a: Adapter, d: nat)
    requires Owned(a) && d < |a.displays| && a.displays[d].changes.Some?
    ensures Owned(Accept(a, d))
  {
    forall e | 0 <= e < |a.displays| ensures Proper(Accept(a, d), e) {
      assert Proper(a, e);
    }
  }

  lemma {:induction false} AcceptAgrees(a: Adapter, retyped: set<nat>, d: nat)
    requires Owned(a) && AllAgree(a, retyped) && d < |a.displays| && a.displays[d].changes.Some?
    ensures AllAgree(Accept(a, d), retyped)
  {
    var b := Accept(a, d);
    forall e | 0 <= e < |b.displays| && b.displays[e].changes.Some?
      ensures Agree(b.layers, retyped, b.displays[e].slots, b.displays[e].contents, Pending(b.displays[e]))
    {
      assert Proper(a, e) && Proper(a, d);
      assert Agree(a.layers, retyped, a.displays[e].slots, a.displays[e].contents, Pending(a.displays[e]));
    }
  }

  /** setAllDisplays sets the displays before the first one that is not ready. */
  lemma {:induction false} SetFromIs(ds: seq<Display>, i: nat) returns (k: nat)
    requires i <= |ds|
    ensures i <= k <= |ds|
    ensures forall e :: 0 <= e < |ds| ==> SetFrom(ds, i).0[e] == if i <= e < k then ds[e].(changes := None) else ds[e]
    ensures forall e :: i <= e < k ==> Ready(ds[e])
    ensures k < |ds| ==> !Ready(ds[k])
    ensures SetFrom(ds, i).1 == if k == |ds| then Fine else NotValidated
    decreases |ds| - i
  {
    if i == |ds| || !Ready(ds[i]) {
      k := i;
    } else {
      k := SetFromIs(ds[i := ds[i].(changes := None)], i + 1);
    }
  }

  lemma {:induction false} PresentQuietly(a: Adapter, b: Adapter, e: nat)
    requires e < |a.displays| == |b.displays| && Proper(a, e) && b.layers == a.layers && b.nextId == a.nextId
    requires b.displays[e] == a.displays[e] || (Ready(a.displays[e]) && b.displays[e] == a.displays[e].(changes := None))
    ensures Proper(b, e) && Share(b, e) == Share(a, e)
  {}

  lemma {:induction false} PresentKeeps(r: Run, budget: nat, d: nat)
    requires Inv(r, budget) && d < |r.a.displays|
    ensures Inv(Next(r, PresentStep(d)), budget)
  {
    var a := r.a;
    var b := Present(a, d).0;
    if a.displays[d].changes.Some? {
      var k := SetFromIs(a.displays, 0);
      forall e | 0 <= e < |a.displays| ensures Proper(b, e) && Share(b, e) == Share(a, e) {
        PresentQuietly(a, b, e);
      }
      TotalShift(a, b, d, 0, |a.displays|);
    }
  }

  lemma {:induction false} RetypeKeeps(r: Run, budget: nat, id: nat, kind: Composition)
    requires Inv(r, budget) && id in r.a.layers
    ensures Inv(Next(r, RetypeStep(id, kind)), budget)
  {
    var a := r.a;
    var next := Next(r, RetypeStep(id, kind));
    var b := next.a;
    var d := a.layers[id].display;
    forall e | 0 <= e < |a.displays|
      ensures Proper(b, e) && Share(b, e) <= Share(a, e) + if e == d then 2 else 0
    {
      assert Proper(a, e);
      SumRetyped(a.layers, Pending(a.displays[e]), b.layers, a.displays[e].order, id);
    }
    TotalShift(a, b, d, 2, |a.displays|);
    forall e | 0 <= e < |b.displays| && b.displays[e].changes.Some?
      ensures Agree(b.layers, next.retyped, b.displays[e].slots, b.displays[e].contents, Pending(b.displays[e]))
    {
      assert Agree(a.layers, r.retyped, a.displays[e].slots, a.displays[e].contents, Pending(a.displays[e]));
    }
  }

  /** A display on which no type and no order changes. */
  lemma {:induction false} QuietDisplay(a: Adapter, b: Adapter, e: nat, retyped: set<nat>, x: Display, y: Display)
    requires Owned(a) && AllAgree(a, retyped) && e < |a.displays| == |b.displays| && b.nextId == a.nextId
    requires x == a.displays[e] && y == b.displays[e] && SameButTransform(x, y) && b.layers.Keys == a.layers.Keys
    requires forall id :: id in b.layers ==>
               b.layers[id].kind == a.layers[id].kind && b.layers[id].display == a.layers[id].display
    ensures Proper(b, e) && Share(b, e) <= Share(a, e)
    ensures y.changes.Some? ==> Agree(b.layers, retyped, y.slots, y.contents, Pending(y))
  {
    assert Proper(a, e) && Pending(y) == Pending(x);
    SumNotMore(a.layers, Pending(x), b.layers, Pending(x), x.order);
    assert x.changes.Some? ==> Agree(a.layers, retyped, x.slots, x.contents, Pending(x));
  }

  /** Steps that touch no type and no order. */
  lemma {:induction false} QuietKeeps(r: Run, budget: nat, b: Adapter)
    requires Inv(r, budget) && b.nextId == r.a.nextId && |b.displays| == |r.a.displays| && b.layers.Keys == r.a.layers.Keys
    requires forall id :: id in b.layers ==>
               b.layers[id].kind == r.a.layers[id].kind && b.layers[id].display == r.a.layers[id].display
    requires forall d :: 0 <= d < |b.displays| ==> b.displays[d].(transform := false) == r.a.displays[d].(transform := false)
    ensures Inv(r.(a := b), budget)
  {
    var a := r.a;
    forall e | 0 <= e < |b.displays|
      ensures Proper(b, e) && Share(b, e) <= Share(a, e)
      ensures var y := b.displays[e]; y.changes.Some? ==> Agree(b.layers, r.retyped, y.slots, y.contents, Pending(y))
    {
      assert b.displays[e].(transform := false) == a.displays[e].(transform := false);
      QuietDisplay(a, b, e, r.retyped, a.displays[e], b.displays[e]);
    }
    TotalShift(a, b, |a.displays|, 0, |a.displays|);
  }

  predicate SameButTransform(x: Display, y: Display) {
    x.order == y.order && x.slots == y.slots && x.contents == y.contents && x.changes == y.changes
  }

  // ---------- Layers come, go and move ----------

  lemma {:induction false} InsertedIs(s: seq<nat>, p: nat, id: nat)
    requires p <= |s| && Distinct(s) && id !in s
    ensures Distinct(Inserted(s, p, id)) && forall x :: x in Inserted(s, p, id) <==> x == id || x in s
  {
    assert s == s[..p] + s[p..];
  }

  lemma {:induction false} WithoutIs(s: seq<nat>, p: nat)
    requires p < |s| && Distinct(s)
    ensures Distinct(Without(s, p)) && forall x :: x in Without(s, p) <==> x in s && x != s[p]
  {
    assert s == s[..p] + [s[p]] + s[p + 1..];
  }

  /** Displays whose layers and changes stay keep their share. */
  lemma {:induction false} OthersKeep(a: Adapter, b: Adapter, e: nat)
    requires e < |a.displays| == |b.displays| && Proper(a, e) && b.displays[e] == a.displays[e] && b.nextId >= a.nextId
    requires forall id :: id in a.layers && a.layers[id].display == e ==> id in b.layers && b.layers[id] == a.layers[id]
    requires forall id :: id in b.layers && id < a.nextId ==> id in a.layers && b.layers[id] == a.layers[id]
    ensures Proper(b, e) && Share(b, e) <= Share(a, e)
  {
    var x := a.displays[e];
    SumNotMore(a.layers, Pending(x), b.layers, Pending(x), x.order);
  }

  /** When only one display's order and layers change, its share is all there is to look at. */
  lemma {:induction false} OneChanges(a: Adapter, b: Adapter, d: nat, more: nat)
    requires d < |a.displays| == |b.displays| && Owned(a) && b.nextId >= a.nextId
    requires Proper(b, d) && Share(b, d) <= Share(a, d) + more
    requires forall e :: 0 <= e < |a.displays| && e != d ==> b.displays[e] == a.displays[e]
    requires forall id :: id in a.layers && a.layers[id].display != d ==> id in b.layers && b.layers[id] == a.layers[id]
    requires forall id :: id in b.layers && id < a.nextId ==> id in a.layers && b.layers[id] == a.layers[id]
    ensures Total(b, |a.displays|) <= Total(a, |a.displays|) + more
    ensures forall e :: 0 <= e < |a.displays| ==> Proper(b, e)
  {
    forall e | 0 <= e < |a.displays| && e != d ensures Proper(b, e) && Share(b, e) <= Share(a, e) {
      assert Proper(a, e);
      OthersKeep(a, b, e);
    }
    TotalShift(a, b, d, more, |a.displays|);
  }

  lemma {:induction false} SlotsKeepAgreeing(a: Adapter, b: Adapter, retyped: set<nat>)
    requires AllAgree(a, retyped) && |b.displays| == |a.displays| && (forall d :: 0 <= d < |a.displays| ==> Proper(a, d))
    requires forall d :: 0 <= d < |a.displays| ==> b.displays[d].(order := []) == a.displays[d].(order := [])
    requires forall id :: id in b.layers && id < a.nextId ==> id in a.layers && b.layers[id] == a.layers[id]
    ensures AllAgree(b, retyped)
  {
    forall e | 0 <= e < |b.displays| && b.displays[e].changes.Some?
      ensures Agree(b.layers, retyped, b.displays[e].slots, b.displays[e].contents, Pending(b.displays[e]))
    {
      var x, y := a.displays[e], b.displays[e];
      assert y.(order := []) == x.(order := []);
      assert y.slots == x.slots && y.contents == x.contents && y.changes == x.changes;
      assert Proper(a, e);
      assert Agree(a.layers, retyped, x.slots, x.contents, Pending(x));
    }
  }

  lemma {:induction false} CreateCosts(a: Adapter, layers: map<nat, Layer>, x: Display, p: nat, id: nat)
    requires p <= |x.order| && id !in x.order && id !in Pending(x)
    requires forall i :: i in a.layers && i != id ==> i in layers && layers[i] == a.layers[i]
    requires forall i :: 0 <= i < |x.order| ==> x.order[i] in a.layers
    ensures Sum(layers, Pending(x), Inserted(x.order, p, id)) <= Sum(a.layers, Pending(x), x.order) + 2
  {
    SumInserted(layers, Pending(x), x.order, p, id);
    SumNotMore(a.layers, Pending(x), layers, Pending(x), x.order);
  }

  lemma {:induction false} OwnMembers(layers: map<nat, Layer>, d: nat, s: seq<nat>, x: nat)
    requires Own(layers, d, s) && x in s
    ensures x in layers && layers[x].display == d
  {}

  /** A display's layers are its own when each of them is new or was its own before. */
  lemma {:induction false} StillOwn(before: map<nat, Layer>, after: map<nat, Layer>, d: nat, s: seq<nat>, t: seq<nat>, id: nat)
    requires Own(before, d, s) && forall i :: 0 <= i < |t| ==> t[i] == id || (t[i] in s && t[i] in after && after[t[i]] == before[t[i]])
    requires id in t ==> id in after && after[id].display == d
    ensures Own(after, d, t)
  {
    forall i | 0 <= i < |t| ensures t[i] in after && after[t[i]].display == d {
      if t[i] != id {
        OwnMembers(before, d, s, t[i]);
      } else {
        assert id in t;
      }
    }
  }

  lemma {:induction false} StillProper(a: Adapter, b: Adapter, d: nat)
    requires d < |a.displays| == |b.displays| && Proper(a, d) && b.nextId >= a.nextId
    requires b.displays[d].changes == a.displays[d].changes && b.displays[d].slots == a.displays[d].slots
    requires Distinct(b.displays[d].order) && Own(b.layers, d, b.displays[d].order)
    requires forall id :: id in b.layers && id < a.nextId ==> id in a.layers && b.layers[id] == a.layers[id]
    ensures Proper(b, d)
  {}

  lemma {:induction false} FreshId(a: Adapter, d: nat)
    requires d < |a.displays| && Housed(a) && Proper(a, d)
    ensures a.nextId !in a.displays[d].order && a.nextId !in Pending(a.displays[d]) && a.nextId !in a.layers
  {
    if a.nextId in a.displays[d].order {
      OwnMembers(a.layers, d, a.displays[d].order, a.nextId);
    }
  }

  lemma {:induction false} CreateOrder(a: Adapter, layers: map<nat, Layer>, d: nat, s: seq<nat>, p: nat, id: nat, order: seq<nat>)
    requires Own(a.layers, d, s) && Distinct(s) && p <= |s| && id !in s && id !in a.layers && order == Inserted(s, p, id)
    requires id in layers && layers[id].display == d && forall i :: i in a.layers ==> i in layers && layers[i] == a.layers[i]
    ensures Distinct(order) && Own(layers, d, order) && forall x :: x in order <==> x == id || x in s
  {
    InsertedIs(s, p, id);
    forall i | 0 <= i < |order| && order[i] != id
      ensures order[i] in s && order[i] in layers && layers[order[i]] == a.layers[order[i]]
    {
      assert order[i] in order;
      OwnMembers(a.layers, d, s, order[i]);
    }
    StillOwn(a.layers, layers, d, s, order, id);
  }

  lemma {:induction false} CreateOwn(a: Adapter, b: Adapter, d: nat, p: nat)
    requires d < |a.displays| && p <= |a.displays[d].order| && Proper(a, d)
    requires a.nextId !in a.displays[d].order && a.nextId !in Pending(a.displays[d]) && a.nextId !in a.layers
    requires b == Next(Run(a, 0, 0, {}), CreateStep(d, p)).a
    ensures Proper(b, d) && Share(b, d) <= Share(a, d) + 2
    ensures forall id :: id in b.displays[d].order <==> id == a.nextId || id in a.displays[d].order
  {
    var x := a.displays[d];
    CreateOrder(a, b.layers, d, x.order, p, a.nextId, b.displays[d].order);
    CreateCosts(a, b.layers, x, p, a.nextId);
    StillProper(a, b, d);
  }

  lemma {:induction false} CreateKeeps(r: Run, budget: nat, d: nat, p: nat)
    requires Inv(r, budget) && d < |r.a.displays| && p <= |r.a.displays[d].order|
    ensures Inv(Next(r, CreateStep(d, p)), budget)
  {
    var b := Next(r, CreateStep(d, p)).a;
    FreshId(r.a, d);
    CreateOwn(r.a, b, d, p);
    OneChanges(r.a, b, d, 2);
    SlotsKeepAgreeing(r.a, b, r.retyped);
  }

  lemma {:induction false} DestroyOwn(a: Adapter, b: Adapter, d: nat, p: nat)
    requires d < |a.displays| && p < |a.displays[d].order| && Proper(a, d)
    requires b == Next(Run(a, 0, 0, {}), DestroyStep(d, p)).a
    ensures Proper(b, d) && Share(b, d) <= Share(a, d)
    ensures forall id :: id in b.displays[d].order <==> id in a.displays[d].order && id != a.displays[d].order[p]
  {
    var x, order := a.displays[d], b.displays[d].order;
    WithoutIs(x.order, p);
    SumWithout(a.layers, Pending(x), x.order, p);
    SumNotMore(a.layers, Pending(x), b.layers, Pending(x), order);
    forall i | 0 <= i < |order|
      ensures order[i] in x.order && order[i] in b.layers && b.layers[order[i]] == a.layers[order[i]]
    {
      assert order[i] in order;
      OwnMembers(a.layers, d, x.order, order[i]);
    }
    StillOwn(a.layers, b.layers, d, x.order, order, x.order[p]);
    StillProper(a, b, d);
  }

  lemma {:induction false} DestroyKeeps(r: Run, budget: nat, d: nat, p: nat)
    requires Inv(r, budget) && d < |r.a.displays| && p < |r.a.displays[d].order|
    ensures Inv(Next(r, DestroyStep(d, p)), budget)
  {
    var b := Next(r, DestroyStep(d, p)).a;
    assert Proper(r.a, d);
    DestroyOwn(r.a, b, d, p);
    OneChanges(r.a, b, d, 0);
    SlotsKeepAgreeing(r.a, b, r.retyped);
  }

  lemma {:induction false} MovedIs(s: seq<nat>, p: nat, q: nat, moved: seq<nat>)
    requires Distinct(s) && p < |s| && q < |s| && moved == Inserted(Without(s, p), q, s[p])
    ensures Distinct(moved) && forall x :: x in moved <==> x in s
  {
    WithoutIs(s, p);
    InsertedIs(Without(s, p), q, s[p]);
  }

  lemma {:induction false} MoveCosts(layers: map<nat, Layer>, m: Changes, s: seq<nat>, p: nat, q: nat)
    requires p < |s| && q < |s|
    ensures Sum(layers, m, Inserted(Without(s, p), q, s[p])) == Sum(layers, m, s)
  {
    SumWithout(layers, m, s, p);
    SumInserted(layers, m, Without(s, p), q, s[p]);
  }

  lemma {:induction false} MoveOwn(a: Adapter, b: Adapter, d: nat, p: nat, q: nat)
    requires d < |a.displays| && p < |a.displays[d].order| && q < |a.displays[d].order| && Proper(a, d)
    requires b == Next(Run(a, 0, 0, {}), MoveStep(d, p, q)).a
    ensures Proper(b, d) && Share(b, d) == Share(a, d)
    ensures forall id :: id in b.displays[d].order <==> id in a.displays[d].order
  {
    var x, moved := a.displays[d], b.displays[d].order;
    MovedIs(x.order, p, q, moved);
    MoveCosts(a.layers, Pending(x), x.order, p, q);
    forall i | 0 <= i < |moved| ensures moved[i] in a.layers && a.layers[moved[i]].display == d {
      assert moved[i] in x.order;
    }
  }

  lemma {:induction false} MoveKeeps(r: Run, budget: nat, d: nat, p: nat, q: nat)
    requires Inv(r, budget) && d < |r.a.displays| && p < |r.a.displays[d].order| && q < |r.a.displays[d].order|
    ensures Inv(Next(r, MoveStep(d, p, q)), budget)
  {
    var b := Next(r, MoveStep(d, p, q)).a;
    assert Proper(r.a, d);
    MoveOwn(r.a, b, d, p, q);
    OneChanges(r.a, b, d, 0);
    SlotsKeepAgreeing(r.a, b, r.retyped);
  }

  // ---------- Runs ----------

  lemma {:induction false} StepKeeps(r: Run, budget: nat, s: Step)
    requires Inv(r, budget) && Enabled(r.a, s)
    ensures Inv(Next(r, s), budget)
  {
    match s
    case ValidateStep(d, first, second) => ValidateKeeps(r, budget, d, first, second);
    case AcceptStep(d) => AcceptKeeps(r, budget, d);
    case PresentStep(d) => PresentKeeps(r, budget, d);
    case RetypeStep(id, kind) => RetypeKeeps(r, budget, id, kind);
    case AttributeStep(_, _, _) => QuietKeeps(r, budget, Next(r, s).a);
    case TransformStep(_, _) => QuietKeeps(r, budget, Next(r, s).a);
    case CreateStep(d, p) => CreateKeeps(r, budget, d, p);
    case DestroyStep(d, p) => DestroyKeeps(r, budget, d, p);
    case MoveStep(d, p, q) => MoveKeeps(r, budget, d, p, q);
  }

  lemma {:induction false} EveryRun(r: Run, budget: nat, steps: seq<Step>)
    requires Inv(r, budget) && Allowed(r, steps)
    ensures Inv(After(r, steps), budget)
    decreases |steps|
  {
    if steps != [] {
      StepKeeps(r, budget, steps[0]);
      EveryRun(Next(r, steps[0]), budget, steps[1..]);
    }
  }

  ghost predicate Start(a: Adapter) {
    Owned(a) && forall d :: 0 <= d < |a.displays| ==> a.displays[d].changes.None?
  }

  function Layers(a: Adapter, n: nat): nat
    requires n <= |a.displays|
  {
    if n == 0 then 0 else Layers(a, n - 1) + |a.displays[n - 1].order|
  }

  lemma {:induction false} TotalIsSmall(a: Adapter, n: nat)
    requires Owned(a) && n <= |a.displays|
    ensures Total(a, n) <= 2 * Layers(a, n)
    decreases n
  {
    if n > 0 {
      TotalIsSmall(a, n - 1);
      assert Proper(a, n - 1);
      WeightsAreSmall(a.layers, Pending(a.displays[n - 1]), a.displays[n - 1].order);
    }
  }

  /** Validate and accept end. Whatever the device answers and in whatever order the displays are
      validated, accepted and presented, the type changes accepted in a run are at most two for every
      layer there was at the start and two for every type the client gives. A client that gives none
      therefore sees changes in finitely many frames only. */
  lemma {:induction false} ChangesRunOut(a: Adapter, steps: seq<Step>)
    requires Start(a) && Allowed(Run(a, 0, 0, {}), steps)
    ensures var r := After(Run(a, 0, 0, {}), steps);
            r.accepted <= 2 * (Layers(a, |a.displays|) + r.given)
  {
    TotalIsSmall(a, |a.displays|);
    EveryRun(Run(a, 0, 0, {}), 2 * Layers(a, |a.displays|), steps);
  }

  /** A present that reaches the device finds every display validated without open changes, and then
      every layer the client did not retype since the last prepare has the type that stands for the
      device's answer, on every display. */
  lemma {:induction false} PresentMeans(a: Adapter, steps: seq<Step>, d: nat)
    requires Start(a) && Allowed(Run(a, 0, 0, {}), steps)
    requires var b := After(Run(a, 0, 0, {}), steps).a;
             d < |b.displays| && b.displays[d].changes.Some? && Present(b, d).1 == Fine
    ensures var r := After(Run(a, 0, 0, {}), steps);
            forall e, i :: 0 <= e < |r.a.displays| && 0 <= i < |r.a.displays[e].slots| ==>
              var x := r.a.displays[e];
              Ready(x) && |x.contents| == |x.slots| + 1 &&
              (x.slots[i] in r.a.layers && x.slots[i] !in r.retyped && Wanted(x.contents[i].kind).Some? ==>
                 Wanted(x.contents[i].kind) == Some(r.a.layers[x.slots[i]].kind))
    ensures var r := After(Run(a, 0, 0, {}), steps);
            forall e, i :: 0 <= e < |r.a.displays| && 0 <= i < |r.a.displays[e].slots| ==>
              var x := r.a.displays[e];
              |x.contents| == |x.slots| + 1 &&
              (x.slots[i] in r.a.layers && x.slots[i] !in r.retyped ==>
                 (x.contents[i].kind == FRAMEBUFFER ==> r.a.layers[x.slots[i]].kind == Client) &&
                 (x.contents[i].kind == OVERLAY ==> r.a.layers[x.slots[i]].kind == Device))
    ensures var b := After(Run(a, 0, 0, {}), steps).a;
            forall e :: 0 <= e < |b.displays| ==> Present(b, d).0.displays[e] == b.displays[e].(changes := None)
  {
    TotalIsSmall(a, |a.displays|);
    EveryRun(Run(a, 0, 0, {}), 2 * Layers(a, |a.displays|), steps);
    var r := After(Run(a, 0, 0, {}), steps);
    var k := SetFromIs(r.a.displays, 0);
    forall e | 0 <= e < |r.a.displays|
      ensures var x := r.a.displays[e]; Ready(x) && Agree(r.a.layers, r.retyped, x.slots, x.contents, map[])
    {
      assert Ready(r.a.displays[e]);
    }
  }

  /** present without changes does nothing; with changes it fails exactly when some display has changes to
      accept or was not validated. */
  lemma {:induction false} PresentFailsIff(a: Adapter, d: nat)
    requires d < |a.displays|
    ensures var (n, error) := Present(a, d);
            (a.displays[d].changes.None? ==> error == Fine && n == a) &&
            (a.displays[d].changes.Some? ==>
               (error == Fine <==> forall e :: 0 <= e < |a.displays| ==> a.displays[e].changes == Some(map[])) &&
               (error == Fine || error == NotValidated))
  {
    if a.displays[d].changes.Some? {
      var k := SetFromIs(a.displays, 0);
      assert forall e :: 0 <= e < |a.displays| ==> (Ready(a.displays[e]) <==> a.displays[e].changes == Some(map[]));
    }
  }

  // ---------- A frame ----------

  /** acceptChanges for the displays up to the n-th, one after the other. */
  function AcceptFirst(a: Adapter, n: nat): (r: Adapter)
    requires n <= |a.displays|
    ensures |r.displays| == |a.displays|
  {
    if n == 0 then a else Accept(AcceptFirst(a, n - 1), n - 1)
  }

  lemma {:induction false} AcceptedAre(a: Adapter, n: nat)
    requires n <= |a.displays| && forall e :: 0 <= e < |a.displays| ==> a.displays[e].changes.Some?
    ensures forall e :: 0 <= e < |a.displays| ==>
              AcceptFirst(a, n).displays[e] == if e < n then a.displays[e].(changes := Some(map[])) else a.displays[e]
  {
    if n > 0 {
      AcceptedAre(a, n - 1);
    }
  }

  /** The protocol succeeds: when a display without changes is validated, every display's changes are
      accepted and it is presented, then whatever the device answered the frame is set on every display,
      and the next frame starts without changes. */
  lemma {:induction false} FrameIsPresented(a: Adapter, d: nat, first: seq<Contents>, second: seq<Contents>)
    requires d < |a.displays| && a.displays[d].changes.None? && Prepareable(a) && Answered(a, first, second)
    ensures var b := AcceptFirst(Validate(a, d, first, second), |a.displays|);
            var (n, error) := Present(b, d);
            error == Fine && |n.displays| == |a.displays| &&
            forall e :: 0 <= e < |n.displays| ==> n.displays[e].changes.None?
  {
    var v := Validate(a, d, first, second);
    AcceptedAre(v, |a.displays|);
    var b := AcceptFirst(v, |a.displays|);
    PresentFailsIff(b, d);
    var k := SetFromIs(b.displays, 0);
  }
}
