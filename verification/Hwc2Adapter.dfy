/** Frames of the HWC2 adapter on an HWC1 device (HWC2On1Adapter.cpp): validate, accept and present,
    with the rule of this device against more than one overlay. */
module Hwc2Adapter {
  import opened Options

  datatype Composition = Invalid | Client | Device | SolidColor | Cursor | Sideband

  datatype Hwc1Kind = FRAMEBUFFER | OVERLAY | BACKGROUND | FRAMEBUFFER_TARGET | SIDEBAND | CURSOR_OVERLAY

  datatype Error = Fine | HasChanges | NotValidated

  /** An HWC1 layer: its composition type and HWC_SKIP_LAYER. */
  datatype Slot = Slot(kind: Hwc1Kind, skip: bool)

  type Contents = c: seq<Slot> | |c| >= 1 witness [Slot(FRAMEBUFFER_TARGET, false)]

  datatype Layer = Layer(
    display: nat,               // mDisplay
    kind: Composition,
    alpha: real,
    noBackground: bool)         // hasUnsupportedBackgroundColor

  type Changes = map<nat, Composition>

  datatype Display = Display(
    order: seq<nat>,            // mLayers
    slots: seq<nat>,            // mHwc1LayerMap as of the last prepare
    contents: Contents,         // mHwc1RequestedContents
    changes: Option<Changes>,   // mChanges
    transform: bool)            // mHasColorTransform

  datatype Adapter = Adapter(layers: map<nat, Layer>, displays: seq<Display>, nextId: nat, minor: nat)

  // ---------- What the adapter asks the device for ----------

  /** applyCompositionType. */
  function ApplyCompositionType(l: Layer, transform: bool, minor: nat): Slot {
    if (minor < 2 && l.alpha < 1.0) || transform || l.noBackground then Slot(FRAMEBUFFER, true)
    else match l.kind
      case Client => Slot(FRAMEBUFFER, true)
      case Device => Slot(FRAMEBUFFER, false)
      case SolidColor => Slot(FRAMEBUFFER, true)
      case Cursor => Slot(FRAMEBUFFER, false)
      case Sideband => if minor < 4 then Slot(SIDEBAND, false) else Slot(FRAMEBUFFER, true)
      case Invalid => Slot(FRAMEBUFFER, true)
  }

  predicate Known(order: seq<nat>, layers: map<nat, Layer>) {
    forall i :: 0 <= i < |order| ==> order[i] in layers
  }

  function Asked(order: seq<nat>, layers: map<nat, Layer>, transform: bool, minor: nat): (c: seq<Slot>)
    requires Known(order, layers)
    ensures |c| == |order|
    ensures forall i :: 0 <= i < |order| ==> c[i] == ApplyCompositionType(layers[order[i]], transform, minor)
  {
    if order == [] then []
    else
      var n := |order| - 1;
      Asked(order[..n], layers, transform, minor) + [ApplyCompositionType(layers[order[n]], transform, minor)]
  }

  /** Display::prepare: one HWC1 layer for every layer, then the framebuffer target. */
  function Request(d: Display, layers: map<nat, Layer>, minor: nat): Contents
    requires Known(d.order, layers)
  {
    Asked(d.order, layers, d.transform, minor) + [Slot(FRAMEBUFFER_TARGET, false)]
  }

  ghost predicate Prepareable(a: Adapter) {
    forall d :: 0 <= d < |a.displays| ==> Known(a.displays[d].order, a.layers)
  }

  ghost function Requests(a: Adapter): (r: seq<Contents>)
    requires Prepareable(a)
    ensures |r| == |a.displays|
  {
    seq(|a.displays|, d requires 0 <= d < |a.displays| => Request(a.displays[d], a.layers, a.minor))
  }

  /** The contract of HWC1 prepare: the device may choose the composition types, but a layer with
      HWC_SKIP_LAYER stays HWC_FRAMEBUFFER and the flag itself stays. */
  ghost predicate Honours(sent: Contents, got: Contents) {
    |got| == |sent| &&
    forall i :: 0 <= i < |sent| ==>
      got[i].skip == sent[i].skip && (sent[i].skip && sent[i].kind == FRAMEBUFFER ==> got[i].kind == FRAMEBUFFER)
  }

  ghost predicate HonoursAll(sent: seq<Contents>, got: seq<Contents>) {
    |got| == |sent| && forall d :: 0 <= d < |sent| ==> Honours(sent[d], got[d])
  }

  // ---------- No more than one overlay ----------

  function Overlays(s: seq<Slot>): (n: nat)
    ensures n <= |s|
  {
    if s == [] then 0 else Overlays(s[..|s| - 1]) + if s[|s| - 1].kind == OVERLAY then 1 else 0
  }

  function Demoted(s: Slot): Slot {
    if s.kind == OVERLAY then Slot(FRAMEBUFFER, true) else s
  }

  predicate TooMany(c: Contents) { Overlays(c[..|c| - 1]) >= 2 }

  /** Every overlay of a display with more than one goes back to the GPU; the last layer is the
      framebuffer target and does not count. */
  function Demote(c: Contents): (r: Contents)
    ensures |r| == |c|
  {
    if TooMany(c) then seq(|c|, i requires 0 <= i < |c| => if i < |c| - 1 then Demoted(c[i]) else c[i]) else c
  }

  function DemoteAll(cs: seq<Contents>): (r: seq<Contents>)
    ensures |r| == |cs|
  {
    seq(|cs|, d requires 0 <= d < |cs| => Demote(cs[d]))
  }

  ghost predicate NeedsRepeat(cs: seq<Contents>) {
    exists d :: 0 <= d < |cs| && TooMany(cs[d])
  }

  /** What the device left behind when it was asked, and asked again where that was necessary. */
  ghost predicate Answered(a: Adapter, first: seq<Contents>, second: seq<Contents>)
    requires Prepareable(a)
  {
    HonoursAll(Requests(a), first) && HonoursAll(DemoteAll(first), second)
  }

  ghost function Final(first: seq<Contents>, second: seq<Contents>): seq<Contents> {
    if NeedsRepeat(first) then second else first
  }

  // ---------- Changes ----------

  /** updateTypeChanges: which HWC2 type an answer stands for. */
  function Wanted(kind: Hwc1Kind): Option<Composition> {
    if kind == FRAMEBUFFER then Some(Client) else if kind == OVERLAY then Some(Device) else None
  }

  /** generateChanges over the first layers. */
  function Generate(layers: map<nat, Layer>, slots: seq<nat>, contents: seq<Slot>): Changes
    requires Known(slots, layers) && |slots| <= |contents|
  {
    if slots == [] then map[]
    else
      var n := |slots| - 1;
      var rest := Generate(layers, slots[..n], contents);
      match Wanted(contents[n].kind)
      case Some(t) => if layers[slots[n]].kind != t then rest[slots[n] := t] else rest
      case None => rest
  }

  function Prepared(d: Display, layers: map<nat, Layer>, answer: Contents): Display
    requires Known(d.order, layers) && |answer| == |d.order| + 1
  {
    d.(slots := d.order, contents := answer, changes := Some(Generate(layers, d.order, answer)))
  }

  /** prepareAllDisplays, given what the device answered. */
  ghost function PrepareAll(a: Adapter, first: seq<Contents>, second: seq<Contents>): Adapter
    requires Prepareable(a) && Answered(a, first, second)
  {
    var final := Final(first, second);
    a.(displays := seq(|a.displays|, d requires 0 <= d < |a.displays| => Prepared(a.displays[d], a.layers, final[d])))
  }

  /** validate: a second call before present only reports the changes again. */
  ghost function Validate(a: Adapter, d: nat, first: seq<Contents>, second: seq<Contents>): Adapter
    requires d < |a.displays| && Prepareable(a) && Answered(a, first, second)
  {
    if a.displays[d].changes.Some? then a else PrepareAll(a, first, second)
  }

  function Retyped(layers: map<nat, Layer>, changes: Changes): (r: map<nat, Layer>)
    ensures r.Keys == layers.Keys
  {
    map id | id in layers :: if id in changes then layers[id].(kind := changes[id]) else layers[id]
  }

  /** acceptChanges: a change for a layer that is gone is passed over. */
  function Accept(a: Adapter, d: nat): Adapter
    requires d < |a.displays|
  {
    match a.displays[d].changes
    case None => a
    case Some(m) => a.(layers := Retyped(a.layers, m), displays := a.displays[d := a.displays[d].(changes := Some(map[]))])
  }

  predicate Ready(d: Display) { d.changes == Some(map[]) }

  /** setAllDisplays: displays are set one after the other until one is not ready, and those before it
      have lost their changes by then. */
  function SetFrom(ds: seq<Display>, i: nat): (r: (seq<Display>, Error))
    requires i <= |ds|
    ensures |r.0| == |ds|
    decreases |ds| - i
  {
    if i == |ds| then (ds, Fine)
    else if !Ready(ds[i]) then (ds, NotValidated)
    else SetFrom(ds[i := ds[i].(changes := None)], i + 1)
  }

  /** present: without changes there is nothing to set. */
  function Present(a: Adapter, d: nat): (r: (Adapter, Error))
    requires d < |a.displays|
  {
    if a.displays[d].changes.None? then (a, Fine)
    else
      var (ds, error) := SetFrom(a.displays, 0);
      (a.(displays := ds), error)
  }

  // ---------- The methods of the source ----------

  class Hwc2On1 {
    var layers: map<nat, Layer>
    var displays: seq<Display>
    var nextId: nat
    const minor: nat

    ghost function State(): Adapter reads this {
      Adapter(layers, displays, nextId, minor)
    }

    constructor (a: Adapter)
      ensures State() == a
    {
      layers, displays, nextId, minor := a.layers, a.displays, a.nextId, a.minor;
    }

    /** Display::prepare, as far as composition types go. */
    method Prepare(d: nat) returns (contents: Contents)
      requires d < |displays| && Known(displays[d].order, layers)
      ensures contents == Request(displays[d], layers, minor)
    {
      var order := displays[d].order;
      var asked: seq<Slot> := [];
      for i := 0 to |order|
        invariant asked == Asked(order[..i], layers, displays[d].transform, minor)
      {
        assert order[..i + 1][..i] == order[..i];
        asked := asked + [ApplyCompositionType(layers[order[i]], displays[d].transform, minor)];
      }
      assert order[..|order|] == order;
      contents := asked + [Slot(FRAMEBUFFER_TARGET, false)];
    }

    /** The loop of prepareAllDisplays over the layers of one display: count, then demote. */
    static method LimitOverlays(contents: Contents) returns (r: Contents, repeat: bool)
      ensures r == Demote(contents) && repeat == TooMany(contents)
    {
      var numLayers := |contents| - 1;
      var overlays := 0;
      for l := 0 to numLayers
        invariant overlays == Overlays(contents[..l])
      {
        assert contents[..l + 1][..l] == contents[..l];
        if contents[l].kind == OVERLAY {
          overlays := overlays + 1;
        }
      }
      r := contents;
      repeat := overlays >= 2;
      if repeat {
        for l := 0 to numLayers
          invariant |r| == |contents|
          invariant forall i :: 0 <= i < |r| ==> r[i] == if i < l then Demoted(contents[i]) else contents[i]
        {
          if r[l].kind == OVERLAY {
            r := r[l := Slot(FRAMEBUFFER, true)];
          }
        }
      }
    }

    /** generateChanges with updateTypeChanges. */
    method GenerateChanges(d: nat, answer: Contents)
      requires d < |displays| && Known(displays[d].order, layers) && |answer| == |displays[d].order| + 1
      modifies this`displays
      ensures displays == old(displays)[d := Prepared(old(displays)[d], layers, answer)]
    {
      var slots := displays[d].order;
      var changes: Changes := map[];
      for i := 0 to |slots|
        invariant displays == old(displays)
        invariant changes == Generate(layers, slots[..i], answer)
      {
        assert slots[..i + 1][..i] == slots[..i];
        match answer[i].kind
        case FRAMEBUFFER =>
          if layers[slots[i]].kind != Client {
            changes := changes[slots[i] := Client];
          }
        case OVERLAY =>
          if layers[slots[i]].kind != Device {
            changes := changes[slots[i] := Device];
          }
        case _ =>
      }
      assert slots[..|slots|] == slots;
      displays := displays[d := displays[d].(slots := slots, contents := answer, changes := Some(changes))];
    }

    /** The overlay rule over all displays. */
    static method LimitAll(first: seq<Contents>) returns (limited: seq<Contents>, repeat: bool)
      ensures limited == DemoteAll(first) && repeat == NeedsRepeat(first)
    {
      limited, repeat := first, false;
      for c := 0 to |first|
        invariant |limited| == |first|
        invariant forall i :: 0 <= i < |first| ==> limited[i] == if i < c then Demote(first[i]) else first[i]
        invariant repeat <==> exists i :: 0 <= i < c && TooMany(first[i])
      {
        var r, again := LimitOverlays(limited[c]);
        limited := limited[c := r];
        repeat := repeat || again;
      }
    }

    /** The contents go back to their displays. */
    method GenerateAll(final: seq<Contents>)
      requires |final| == |displays|
      requires forall i :: 0 <= i < |displays| ==> Known(displays[i].order, layers) && |final[i]| == |displays[i].order| + 1
      modifies this`displays
      ensures |displays| == |old(displays)|
      ensures forall i :: 0 <= i < |displays| ==> displays[i] == Prepared(old(displays)[i], layers, final[i])
    {
      for d := 0 to |displays|
        invariant |displays| == |old(displays)|
        invariant forall i :: 0 <= i < |displays| ==>
                    displays[i] == if i < d then Prepared(old(displays)[i], layers, final[i]) else old(displays)[i]
      {
        GenerateChanges(d, final[d]);
      }
    }

    /** prepareAllDisplays; first and second are what the device makes of the two calls of prepare. */
    method PrepareAllDisplays(first: seq<Contents>, second: seq<Contents>)
      requires Prepareable(State()) && Answered(State(), first, second)
      modifies this`displays
      ensures State() == PrepareAll(old(State()), first, second)
    {
      var limited, repeat := LimitAll(first);
      var final := if repeat then second else limited;
      assert final == Final(first, second);
      GenerateAll(final);
      assert displays == PrepareAll(old(State()), first, second).displays;
    }

    /** validate. */
    method ValidateDisplay(d: nat, first: seq<Contents>, second: seq<Contents>) returns (error: Error)
      requires d < |displays| && Prepareable(State()) && Answered(State(), first, second)
      modifies this`displays
      ensures State() == Validate(old(State()), d, first, second)
      ensures |displays| == |old(displays)| && displays[d].changes.Some?
      ensures old(displays)[d].changes.Some? ==> displays == old(displays)
      ensures error == if displays[d].changes.value != map[] then HasChanges else Fine
    {
      if displays[d].changes.None? {
        PrepareAllDisplays(first, second);
      }
      error := if displays[d].changes.value != map[] then HasChanges else Fine;
    }

    /** acceptChanges. */
    method AcceptChanges(d: nat) returns (error: Error)
      requires d < |displays|
      modifies this`layers, this`displays
      ensures State() == Accept(old(State()), d)
      ensures layers.Keys == old(layers).Keys && |displays| == |old(displays)|
      ensures forall id :: id in layers ==>
                var m := old(displays)[d].changes;
                layers[id] == if m.Some? && id in m.value then old(layers)[id].(kind := m.value[id]) else old(layers)[id]
      ensures error == if old(displays)[d].changes.None? then NotValidated else Fine
    {
      if displays[d].changes.None? {
        return NotValidated;
      }
      var m := displays[d].changes.value;
      var rest := m.Keys;
      while rest != {}
        invariant displays == old(displays) && rest <= m.Keys
        invariant layers == Retyped(old(layers), m - rest)
        decreases |rest|
      {
        var id :| id in rest;
        if id in layers {
          layers := layers[id := layers[id].(kind := m[id])];
        }
        rest := rest - {id};
      }
      assert m - {} == m;
      displays := displays[d := displays[d].(changes := Some(map[]))];
      error := Fine;
    }

    /** Display::set, called by setAllDisplays for one display after the other. */
    method SetAllDisplays() returns (error: Error)
      modifies this`displays
      ensures (displays, error) == SetFrom(old(displays), 0)
    {
      for i := 0 to |displays|
        invariant |displays| == |old(displays)|
        invariant SetFrom(displays, i) == SetFrom(old(displays), 0)
      {
        if displays[i].changes.None? || displays[i].changes.value != map[] {
          return NotValidated;
        }
        displays := displays[i := displays[i].(changes := None)];
      }
      error := Fine;
    }

    /** present. */
    method PresentDisplay(d: nat) returns (error: Error)
      requires d < |displays|
      modifies this`displays
      ensures (State(), error) == Present(old(State()), d)
    {
      error := Fine;
      if displays[d].changes.Some? {
        error := SetAllDisplays();
      }
    }
  }
}
