/** The layers of one HWC2 display (HWC2On1Adapter.cpp): their Z order, their HWC1 numbers, and the arena
    their rectangles are handed out from. */
module Hwc2Layers {
  import opened Options
  import opened Sequences

  datatype Rect = Rect(left: int, top: int, right: int, bottom: int)

  datatype Error = Fine | BadLayer

  datatype Layer = Layer(
    display: nat,        // mDisplay
    z: nat,              // mZ
    visible: seq<Rect>,  // mVisibleRegion
    damage: nat)         // getNumSurfaceDamages

  /** hwc_region_t: a count and a pointer into the arena. */
  datatype Region = Region(numRects: nat, rects: Option<nat>)

  datatype Stack = Stack(
    known: map<nat, Layer>,  // the device's layers, those of other displays included
    order: seq<nat>,         // mLayers, a multiset ordered by Z
    nextId: nat,             // sNextId
    changed: bool)           // mGeometryChanged

  // ---------- A multiset ordered by Z ----------

  function ZOf(known: map<nat, Layer>, id: nat): nat {
    if id in known then known[id].z else 0
  }

  /** lower_bound and upper_bound, from i on. */
  function LowerBound(known: map<nat, Layer>, order: seq<nat>, z: nat, i: nat): (k: nat)
    requires i <= |order|
    ensures i <= k <= |order|
    ensures forall j :: i <= j < k ==> ZOf(known, order[j]) < z
    ensures k < |order| ==> ZOf(known, order[k]) >= z
    decreases |order| - i
  {
    if i == |order| || ZOf(known, order[i]) >= z then i else LowerBound(known, order, z, i + 1)
  }

  function UpperBound(known: map<nat, Layer>, order: seq<nat>, z: nat, i: nat): (k: nat)
    requires i <= |order|
    ensures i <= k <= |order|
    ensures forall j :: i <= j < k ==> ZOf(known, order[j]) <= z
    ensures k < |order| ==> ZOf(known, order[k]) > z
    decreases |order| - i
  {
    if i == |order| || ZOf(known, order[i]) > z then i else UpperBound(known, order, z, i + 1)
  }

  /** emplace puts an element behind those equal to it. */
  function Emplaced(known: map<nat, Layer>, order: seq<nat>, id: nat): seq<nat> {
    var k := UpperBound(known, order, ZOf(known, id), 0);
    order[..k] + [id] + order[k..]
  }

  /** The loop over an equal_range for the layer itself. */
  function Find(order: seq<nat>, lo: nat, hi: nat, id: nat): (r: Option<nat>)
    requires lo <= |order| && hi <= |order|
    ensures r.Some? ==> lo <= r.value < hi && order[r.value] == id
    ensures r.None? ==> forall j :: lo <= j < hi ==> order[j] != id
    decreases hi - lo
  {
    if lo >= hi then None else if order[lo] == id then Some(lo) else Find(order, lo + 1, hi, id)
  }

  function Seat(s: Stack, id: nat): (r: Option<nat>)
    ensures r.Some? ==> r.value < |s.order| && s.order[r.value] == id
  {
    var z := ZOf(s.known, id);
    Find(s.order, LowerBound(s.known, s.order, z, 0), UpperBound(s.known, s.order, z, 0), id)
  }

  // ---------- createLayer, destroyLayer, updateLayerZ ----------

  function CreateLayer(s: Stack, display: nat): Stack {
    var known := s.known[s.nextId := Layer(display, 0, [], 0)];
    Stack(known, Emplaced(known, s.order, s.nextId), s.nextId + 1, true)
  }

  function DestroyLayer(s: Stack, id: nat): (r: (Stack, Error)) {
    if id !in s.known then (s, BadLayer)
    else
      var order := match Seat(s, id) case Some(i) => Without(s.order, i) case None => s.order;
      (s.(known := s.known - {id}, order := order, changed := true), Fine)
  }

  function UpdateLayerZ(s: Stack, id: nat, z: nat): (r: (Stack, Error)) {
    if id !in s.known then (s, BadLayer)
    else
      match Seat(s, id)
      case None => (s, BadLayer)
      case Some(i) =>
        if s.known[id].z == z then (s, Fine)
        else
          var known := s.known[id := s.known[id].(z := z)];
          (Stack(known, Emplaced(known, Without(s.order, i), id), s.nextId, true), Fine)
  }

  // ---------- HWC1 numbers and rectangles ----------

  function Visible(known: map<nat, Layer>, id: nat): seq<Rect> {
    if id in known then known[id].visible else []
  }

  function Damage(known: map<nat, Layer>, id: nat): nat {
    if id in known then known[id].damage else 0
  }

  function Used(known: map<nat, Layer>, order: seq<nat>): nat {
    if order == [] then 0 else Used(known, order[..|order| - 1]) + |Visible(known, order[|order| - 1])|
  }

  function Spare(known: map<nat, Layer>, order: seq<nat>): nat {
    if order == [] then 0 else Spare(known, order[..|order| - 1]) + Damage(known, order[|order| - 1])
  }

  /** All visible regions one after the other. */
  function Flat(known: map<nat, Layer>, order: seq<nat>): (r: seq<Rect>)
    ensures |r| == Used(known, order)
  {
    if order == [] then [] else Flat(known, order[..|order| - 1]) + Visible(known, order[|order| - 1])
  }

  /** The regions GetRects hands out for them. */
  function Regions(known: map<nat, Layer>, order: seq<nat>): (r: seq<Region>)
    ensures |r| == |order|
  {
    if order == [] then []
    else
      var before := order[..|order| - 1];
      var n := |Visible(known, order[|order| - 1])|;
      Regions(known, before) + [Region(n, if n == 0 then None else Some(Used(known, before)))]
  }

  const NO_RECT := Rect(0, 0, 0, 0)

  /** The class of the source. */
  class Display {
    const id: nat
    var known: map<nat, Layer>
    var order: seq<nat>
    var nextId: nat
    var changed: bool
    var hwc1Map: map<nat, nat>   // mHwc1LayerMap
    var hwc1Id: map<nat, nat>    // mHwc1Id of each layer
    var rects: array<Rect>       // the end of mHwc1RequestedContents
    var next: nat                // mNextAvailableRect
    var available: nat           // mNumAvailableRects
    var hwLayers: seq<Region>    // visibleRegionScreen of each HWC1 layer

    function State(): Stack reads this {
      Stack(known, order, nextId, changed)
    }

    constructor (display: nat, layers: map<nat, Layer>, free: nat)
      ensures id == display && State() == Stack(layers, [], free, false)
    {
      id := display;
      known, order, nextId, changed := layers, [], free, false;
      hwc1Map, hwc1Id, hwLayers, next, available := map[], map[], [], 0, 0;
      rects := new Rect[0];
    }

    /** createLayer. */
    method Create() returns (layer: nat)
      modifies this`known, this`order, this`nextId, this`changed
      ensures State() == CreateLayer(old(State()), id) && layer == old(nextId)
    {
      layer := nextId;
      nextId := nextId + 1;
      known := known[layer := Layer(id, 0, [], 0)];
      order := Emplaced(known, order, layer);
      changed := true;
    }

    /** destroyLayer. */
    method Destroy(layer: nat) returns (error: Error)
      modifies this`known, this`order, this`changed
      ensures (State(), error) == DestroyLayer(old(State()), layer)
    {
      if layer !in known {
        return BadLayer;
      }
      var current := LowerBound(known, order, known[layer].z, 0);
      var end := UpperBound(known, order, known[layer].z, 0);
      known := known - {layer};
      while current < end
        invariant order == old(order) && current <= |order|
        invariant Find(order, current, end, layer) == Seat(old(State()), layer)
      {
        if order[current] == layer {
          order := Without(order, current);
          break;
        }
        current := current + 1;
      }
      changed := true;
      error := Fine;
    }

    /** updateLayerZ. */
    method UpdateZ(layer: nat, z: nat) returns (error: Error)
      modifies this`known, this`order, this`changed
      ensures (State(), error) == UpdateLayerZ(old(State()), layer, z)
    {
      if layer !in known {
        return BadLayer;
      }
      var current := LowerBound(known, order, known[layer].z, 0);
      var end := UpperBound(known, order, known[layer].z, 0);
      var layerOnDisplay := false;
      while current < end
        invariant State() == old(State()) && !layerOnDisplay && current <= |order|
        invariant Find(order, current, end, layer) == Seat(State(), layer)
      {
        if order[current] == layer {
          if known[layer].z == z {
            return Fine;
          }
          order := Without(order, current);
          layerOnDisplay := true;
          break;
        }
        current := current + 1;
      }
      if !layerOnDisplay {
        return BadLayer;
      }
      known := known[layer := known[layer].(z := z)];
      order := Emplaced(known, order, layer);
      changed := true;
      error := Fine;
    }

    /** assignHwc1LayerIds. */
    method AssignHwc1LayerIds()
      modifies this`hwc1Map, this`hwc1Id
      ensures hwc1Map == map i | 0 <= i < |order| :: order[i]
      ensures (forall i, j :: 0 <= i < j < |order| ==> order[i] != order[j]) ==>
                forall i :: 0 <= i < |order| ==> order[i] in hwc1Id && hwc1Id[order[i]] == i
    {
      hwc1Map := map[];
      for n := 0 to |order|
        invariant hwc1Map == map i | 0 <= i < n :: order[i]
        invariant (forall i, j :: 0 <= i < j < |order| ==> order[i] != order[j]) ==>
                    forall i :: 0 <= i < n ==> order[i] in hwc1Id && hwc1Id[order[i]] == i
      {
        hwc1Map := hwc1Map[n := order[n]];
        hwc1Id := hwc1Id[order[n] := n];
      }
    }

    /** allocateRequestedContents: one rectangle for the framebuffer target, and one for each visible and
        each damaged rectangle. */
    method AllocateRequestedContents()
      modifies this`rects, this`next, this`available, this`hwLayers
      ensures fresh(rects) && next == 0 && rects.Length == available == 1 + Used(known, order) + Spare(known, order)
      ensures forall i :: 0 <= i < rects.Length ==> rects[i] == NO_RECT
      ensures hwLayers == seq(|order| + 1, i => Region(0, None))
    {
      var numSurfaceDamages, numVisibleRegion := 0, 1;
      for i := 0 to |order|
        invariant numSurfaceDamages == Spare(known, order[..i])
      {
        assert order[..i + 1][..i] == order[..i];
        numSurfaceDamages := numSurfaceDamages + Damage(known, order[i]);
      }
      for i := 0 to |order|
        invariant numVisibleRegion == 1 + Used(known, order[..i])
      {
        assert order[..i + 1][..i] == order[..i];
        numVisibleRegion := numVisibleRegion + |Visible(known, order[i])|;
      }
      assert order[..|order|] == order;
      rects := new Rect[numVisibleRegion + numSurfaceDamages](_ => NO_RECT);
      hwLayers := seq(|order| + 1, i => Region(0, None));
      next, available := 0, rects.Length;
    }

    /** GetRects: nothing when nothing is asked for, nothing when too much is. */
    method GetRects(numRects: nat) returns (r: Option<nat>)
      modifies this`next, this`available
      ensures r == if numRects == 0 || numRects > old(available) then None else Some(old(next))
      ensures next == if r.None? then old(next) else old(next) + numRects
      ensures available == if r.None? then old(available) else old(available) - numRects
    {
      if numRects == 0 {
        return None;
      }
      if numRects > available {
        return None;
      }
      r := Some(next);
      next := next + numRects;
      available := available - numRects;
    }

    /** applyCommonState, as far as the visible region goes. Its caller proves that GetRects succeeds. */
    method ApplyVisibleRegion(n: nat, region: seq<Rect>)
      requires n < |hwLayers| && next + available == rects.Length && |region| <= available
      modifies this`next, this`available, this`hwLayers, rects
      ensures next == old(next) + |region| && available == old(available) - |region|
      ensures hwLayers == old(hwLayers)[n := Region(|region|, if region == [] then None else Some(old(next)))]
      ensures rects[..next] == old(rects[..next]) + region
      ensures rects[next..] == old(rects[next + |region|..])
    {
      ghost var at := next;
      var r := GetRects(|region|);
      hwLayers := hwLayers[n := Region(|region|, r)];
      for i := 0 to |region|
        modifies rects
        invariant rects[..at] == old(rects[..at])
        invariant rects[at..at + i] == region[..i]
        invariant rects[at + |region|..] == old(rects[at + |region|..])
      {
        rects[r.value + i] := region[i];
        assert rects[at..at + i + 1] == rects[at..at + i] + [region[i]];
      }
      assert rects[..next] == rects[..at] + rects[at..next];
    }

    /** The k-th turn of the loop of prepare over the layers. */
    method ApplyState(k: nat)
      requires k < |order| < |hwLayers| && order[k] in hwc1Id && hwc1Id[order[k]] == k
      requires next == Used(known, order[..k]) && available == rects.Length - next && Used(known, order) <= rects.Length
      requires hwLayers[..k] == Regions(known, order[..k]) && rects[..next] == Flat(known, order[..k])
      modifies this`next, this`available, this`hwLayers, rects
      ensures old(next) <= next == Used(known, order[..k + 1]) <= Used(known, order) && available == rects.Length - next
      ensures |hwLayers| == |old(hwLayers)| && hwLayers[..k + 1] == Regions(known, order[..k + 1])
      ensures rects[..next] == Flat(known, order[..k + 1]) && rects[next..] == old(rects[Used(known, order[..k + 1])..])
    {
      OneMore(known, order, k);
      ApplyVisibleRegion(hwc1Id[order[k]], Visible(known, order[k]));
      assert hwLayers[..k + 1] == hwLayers[..k] + [hwLayers[k]];
    }

    /** The loop of prepare over the layers. */
    method ApplyStates()
      requires |hwLayers| == |order| + 1 && next == 0 && available == rects.Length >= Used(known, order)
      requires forall i :: 0 <= i < |order| ==> order[i] in hwc1Id && hwc1Id[order[i]] == i
      modifies this`next, this`available, this`hwLayers, rects
      ensures next == Used(known, order) && available == rects.Length - next
      ensures |hwLayers| == |order| + 1 && hwLayers[..|order|] == Regions(known, order)
      ensures rects[..next] == Flat(known, order) && rects[next..] == old(rects[Used(known, order)..])
    {
      ghost var was, at := rects[..], 0;
      for k := 0 to |order|
        invariant next == Used(known, order[..k]) <= Used(known, order) && available == rects.Length - next
        invariant |hwLayers| == |order| + 1 && hwLayers[..k] == Regions(known, order[..k])
        invariant rects[..next] == Flat(known, order[..k]) && at == next && rects[next..] == was[next..]
      {
        ghost var now := rects[..];
        ApplyState(k);
        assert rects[next..] == now[next..];
        TailStays(now, was, at, next);
        at := next;
      }
      assert order[..|order|] == order;
    }

    /** prepare up to the framebuffer target. */
    method PrepareLayers()
      requires forall i, j :: 0 <= i < j < |order| ==> order[i] != order[j]
      modifies this`rects, this`next, this`available, this`hwLayers, this`hwc1Map, this`hwc1Id
      ensures fresh(rects) && hwc1Map == map i | 0 <= i < |order| :: order[i]
      ensures next == Used(known, order) && available == rects.Length - next
      ensures |hwLayers| == |order| + 1 && hwLayers[..|order|] == Regions(known, order)
      ensures rects[..next] == Flat(known, order)
      ensures rects[next..] == [NO_RECT] + seq(Spare(known, order), i => NO_RECT)
    {
      AllocateRequestedContents();
      AssignHwc1LayerIds();
      assert rects[Used(known, order)..] == [NO_RECT] + seq(Spare(known, order), i => NO_RECT);
      ApplyStates();
    }

    /** prepare: what it does for a display that HWC1 knows and that has a configuration of this size. */
    method Prepare(width: int, height: int)
      requires forall i, j :: 0 <= i < j < |order| ==> order[i] != order[j]
      modifies this`rects, this`next, this`available, this`hwLayers, this`hwc1Map, this`hwc1Id, this`changed
      ensures fresh(rects) && !changed && hwc1Map == map i | 0 <= i < |order| :: order[i]
      ensures hwLayers == Regions(known, order) + [Region(1, Some(Used(known, order)))]
      ensures rects[..] == Flat(known, order) + [Rect(0, 0, width, height)] + seq(Spare(known, order), i => NO_RECT)
      ensures next == Used(known, order) + 1 && available == Spare(known, order)
    {
      PrepareLayers();
      ghost var regions, u := hwLayers[..|order|], next;
      SecondOn(rects[..], u, NO_RECT, seq(Spare(known, order), i => NO_RECT));
      PrepareFramebufferTarget(width, height);
      assert hwLayers == regions + [Region(1, Some(u))];
      changed := false;
    }

    /** prepareFramebufferTarget. */
    method PrepareFramebufferTarget(width: int, height: int)
      requires |hwLayers| == |order| + 1 && next + available == rects.Length && 1 <= available
      modifies this`next, this`available, this`hwLayers, rects
      ensures next == old(next) + 1 && available == old(available) - 1
      ensures hwLayers == old(hwLayers)[|order| := Region(1, Some(old(next)))]
      ensures rects[..] == old(rects[..next]) + [Rect(0, 0, width, height)] + old(rects[next + 1..])
    {
      var r := GetRects(1);
      rects[r.value] := Rect(0, 0, width, height);
      hwLayers := hwLayers[|order| := Region(1, r)];
    }
  }

  lemma {:induction false} SecondOn<T>(s: seq<T>, u: nat, x: T, t: seq<T>)
    requires u < |s| && s[u..] == [x] + t
    ensures s[u + 1..] == t
  {
    assert s[u + 1..] == s[u..][1..];
  }

  lemma {:induction false} TailStays<T>(s: seq<T>, was: seq<T>, i: nat, j: nat)
    requires i <= j <= |s| == |was| && s[i..] == was[i..]
    ensures s[j..] == was[j..]
  {
    assert s[j..] == s[i..][j - i..] && was[j..] == was[i..][j - i..];
  }

  lemma {:induction false} OneMore(known: map<nat, Layer>, order: seq<nat>, k: nat)
    requires k < |order|
    ensures var v := Visible(known, order[k]);
            var u := Used(known, order[..k]);
            Used(known, order[..k + 1]) == u + |v| <= Used(known, order) &&
            Flat(known, order[..k + 1]) == Flat(known, order[..k]) + v &&
            Regions(known, order[..k + 1]) == Regions(known, order[..k]) + [Region(|v|, if v == [] then None else Some(u))]
  {
    assert order[..k + 1][..k] == order[..k];
    UsedGrows(known, order, k + 1);
  }

  lemma {:induction false} UsedGrows(known: map<nat, Layer>, order: seq<nat>, k: nat)
    requires k <= |order|
    ensures Used(known, order[..k]) <= Used(known, order)
    decreases |order| - k
  {
    if k < |order| {
      assert order[..k + 1][..k] == order[..k];
      UsedGrows(known, order, k + 1);
    } else {
      assert order[..k] == order;
    }
  }
}
