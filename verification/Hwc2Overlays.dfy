/** The rule of this device against more than one overlay (HWC2On1Adapter.cpp): exactly when it holds. */
module Hwc2Overlays {
  import opened Options
  import opened Hwc2Adapter

  /** The layers of a display without the framebuffer target. */
  function Body(c: Contents): seq<Slot> { c[..|c| - 1] }

  /** A layer the device has to leave alone. */
  predicate Pinned(s: Slot) { s.skip && s.kind == FRAMEBUFFER }

  /** The layers the device may make overlays. */
  function Free(s: seq<Slot>): (n: nat)
    ensures n <= |s|
  {
    if s == [] then 0 else Free(s[..|s| - 1]) + if Pinned(s[|s| - 1]) then 0 else 1
  }

  /** The contract of HWC1 prepare without the target. */
  ghost predicate Keeps(s: seq<Slot>, g: seq<Slot>) {
    |g| == |s| && forall i :: 0 <= i < |s| ==> g[i].skip == s[i].skip && (Pinned(s[i]) ==> g[i].kind == FRAMEBUFFER)
  }

  lemma {:induction false} KeepsBounds(s: seq<Slot>, g: seq<Slot>)
    requires Keeps(s, g)
    ensures Overlays(g) <= Free(g) <= Free(s)
  {
    if s != [] {
      var n := |s| - 1;
      KeepsBounds(s[..n], g[..n]);
    }
  }

  lemma BodyKeeps(sent: Contents, got: Contents)
    requires Honours(sent, got)
    ensures Keeps(Body(sent), Body(got))
  {}

  /** A demoted overlay is pinned, and nothing else changes. */
  lemma {:induction false} DemotedFree(s: seq<Slot>, t: seq<Slot>)
    requires |t| == |s| && forall i :: 0 <= i < |s| ==> t[i] == Demoted(s[i])
    ensures Free(t) == Free(s) - Overlays(s)
  {
    if s != [] {
      var n := |s| - 1;
      DemotedFree(s[..n], t[..n]);
    }
  }

  lemma DemoteFree(c: Contents)
    requires TooMany(c)
    ensures Free(Body(Demote(c))) == Free(Body(c)) - Overlays(Body(c))
  {
    DemotedFree(Body(c), Body(Demote(c)));
  }

  // ---------- The device at its worst ----------

  /** The first n layers the device may make overlays become overlays. */
  function Taken(s: seq<Slot>, n: nat): (g: seq<Slot>)
    ensures |g| == |s|
  {
    if s == [] then []
    else
      var front, last := s[..|s| - 1], s[|s| - 1];
      Taken(front, n) + [if !Pinned(last) && Free(front) < n then last.(kind := OVERLAY) else last]
  }

  lemma {:induction false} TakenKeeps(s: seq<Slot>, n: nat)
    ensures Keeps(s, Taken(s, n)) && Free(Taken(s, n)) == Free(s)
  {
    if s != [] {
      TakenKeeps(s[..|s| - 1], n);
      var g := Taken(s, n);
      assert g[..|g| - 1] == Taken(s[..|s| - 1], n);
    }
  }

  lemma {:induction false} OneIs(s: seq<Slot>)
    ensures Overlays(s) >= 1 <==> exists i :: 0 <= i < |s| && s[i].kind == OVERLAY
    decreases |s|
  {
    if s != [] {
      var rest := s[..|s| - 1];
      OneIs(rest);
      assert forall i :: 0 <= i < |rest| ==> s[i] == rest[i];
    }
  }

  lemma {:induction false} TwoIs(s: seq<Slot>)
    ensures Overlays(s) >= 2 <==> exists i, j :: 0 <= i < j < |s| && s[i].kind == OVERLAY && s[j].kind == OVERLAY
    decreases |s|
  {
    if s != [] {
      var rest := s[..|s| - 1];
      TwoIs(rest);
      OneIs(rest);
      assert forall i :: 0 <= i < |rest| ==> s[i] == rest[i];
    }
  }

  /** A display is limited exactly when two of its layers were answered as overlays; then every overlay
      goes back to the GPU, and nothing else changes, the framebuffer target at the end included. */
  lemma {:induction false} LimitMeans(c: Contents)
    ensures var n := |c| - 1;
            var two := exists i, j :: 0 <= i < j < n && c[i].kind == OVERLAY && c[j].kind == OVERLAY;
            TooMany(c) == two &&
            Demote(c)[n] == c[n] &&
            forall i :: 0 <= i < n ==>
              Demote(c)[i] == if two && c[i].kind == OVERLAY then Slot(FRAMEBUFFER, true) else c[i]
  {
    var body := c[..|c| - 1];
    TwoIs(body);
    assert forall i :: 0 <= i < |body| ==> c[i] == body[i];
  }

  lemma {:induction false} TakenOverlays(s: seq<Slot>, n: nat)
    ensures Overlays(s) == 0 ==> Overlays(Taken(s, n)) == if n < Free(s) then n else Free(s)
    ensures Free(s) <= n ==> Overlays(Taken(s, n)) == Free(s)
  {
    if s != [] {
      TakenOverlays(s[..|s| - 1], n);
      var g := Taken(s, n);
      assert g[..|g| - 1] == Taken(s[..|s| - 1], n);
    }
  }

  function Answer(sent: Contents, n: nat): (got: Contents)
    ensures |got| == |sent| && Body(got) == Taken(Body(sent), n)
  {
    Taken(Body(sent), n) + [sent[|sent| - 1]]
  }

  lemma AnswerHonours(sent: Contents, n: nat)
    ensures Honours(sent, Answer(sent, n))
  {
    TakenKeeps(Body(sent), n);
    var got := Answer(sent, n);
    forall i | 0 <= i < |sent|
      ensures got[i].skip == sent[i].skip && (sent[i].skip && sent[i].kind == FRAMEBUFFER ==> got[i].kind == FRAMEBUFFER)
    {
      if i < |sent| - 1 {
        assert got[i] == Body(got)[i] && sent[i] == Body(sent)[i];
      }
    }
  }

  /** One prepare: whatever a device that keeps its contract answers to a request, there is at most one
      overlay, if and only if the request leaves it at most one layer. */
  lemma OneAnswer(sent: Contents)
    ensures (forall got: Contents :: Honours(sent, got) ==> Overlays(Body(got)) <= 1) <==> Free(Body(sent)) <= 1
  {
    forall got: Contents | Honours(sent, got) ensures Overlays(Body(got)) <= Free(Body(sent)) {
      BodyKeeps(sent, got);
      KeepsBounds(Body(sent), Body(got));
    }
    var worst := Answer(sent, |sent|);
    AnswerHonours(sent, |sent|);
    TakenOverlays(Body(sent), |sent|);
  }

  // ---------- A whole frame ----------

  /** Layers that become overlays in the second prepare. */
  function Promoted(first: seq<Slot>, second: seq<Slot>): nat
    requires |first| == |second|
  {
    if first == [] then 0
    else
      var n := |first| - 1;
      Promoted(first[..n], second[..n]) + if first[n].kind != OVERLAY && second[n].kind == OVERLAY then 1 else 0
  }

  lemma {:induction false} OnlyPromoted(first: seq<Slot>, second: seq<Slot>)
    requires |first| == |second|
    requires forall i :: 0 <= i < |first| && first[i].kind == OVERLAY ==> second[i].kind == FRAMEBUFFER
    ensures Overlays(second) == Promoted(first, second)
  {
    if first != [] {
      var n := |first| - 1;
      OnlyPromoted(first[..n], second[..n]);
    }
  }

  /** A display with too many overlays loses all of them and is left with what the second prepare
      promotes, of the layers the device may take no more than it did not take at first. */
  lemma OverlaysLeft(sent: seq<Contents>, first: seq<Contents>, second: seq<Contents>, d: nat)
    requires HonoursAll(sent, first) && HonoursAll(DemoteAll(first), second) && d < |first| && TooMany(first[d])
    ensures var last := Final(first, second)[d];
            |last| == |first[d]| &&
            (forall i :: 0 <= i < |last| - 1 && first[d][i].kind == OVERLAY ==> last[i] == Slot(FRAMEBUFFER, true)) &&
            Overlays(Body(last)) == Promoted(Body(first[d]), Body(last)) <= Free(Body(sent[d])) - Overlays(Body(first[d]))
  {
    var last := second[d];
    assert NeedsRepeat(first);
    BodyKeeps(Demote(first[d]), last);
    KeepsBounds(Body(Demote(first[d])), Body(last));
    DemoteFree(first[d]);
    BodyKeeps(sent[d], first[d]);
    KeepsBounds(Body(sent[d]), Body(first[d]));
    forall i | 0 <= i < |last| - 1 && first[d][i].kind == OVERLAY ensures last[i] == Slot(FRAMEBUFFER, true) {
      assert DemoteAll(first)[d][i] == Slot(FRAMEBUFFER, true);
    }
    OnlyPromoted(Body(first[d]), Body(last));
  }

  /** What can be read off the requests: the display has at most one layer the device may take, or at
      most three and no other display can bring about the second prepare. */
  ghost predicate Guarded(sent: seq<Contents>, d: nat)
    requires d < |sent|
  {
    Free(Body(sent[d])) <= 1 ||
    (Free(Body(sent[d])) <= 3 && forall e :: 0 <= e < |sent| && e != d ==> Free(Body(sent[e])) <= 1)
  }

  lemma GuardedHolds(sent: seq<Contents>, d: nat, first: seq<Contents>, second: seq<Contents>)
    requires d < |sent| && Guarded(sent, d) && HonoursAll(sent, first) && HonoursAll(DemoteAll(first), second)
    ensures Overlays(Body(Final(first, second)[d])) <= 1
  {
    BodyKeeps(sent[d], first[d]);
    KeepsBounds(Body(sent[d]), Body(first[d]));
    if NeedsRepeat(first) {
      BodyKeeps(Demote(first[d]), second[d]);
      KeepsBounds(Body(Demote(first[d])), Body(second[d]));
      if TooMany(first[d]) {
        DemoteFree(first[d]);
      } else if Free(Body(sent[d])) > 1 {
        var e :| 0 <= e < |first| && TooMany(first[e]);
        BodyKeeps(sent[e], first[e]);
        KeepsBounds(Body(sent[e]), Body(first[e]));
      }
    } else {
      assert !TooMany(first[d]);
    }
  }

  /** Display x answers with two overlays and the others with none; asked again, display d takes all it can. */
  function FirstAnswers(sent: seq<Contents>, x: nat): (r: seq<Contents>)
    ensures |r| == |sent|
  {
    seq(|sent|, e requires 0 <= e < |sent| => if e == x then Answer(sent[e], 2) else sent[e])
  }

  function SecondAnswers(asked: seq<Contents>, d: nat): (r: seq<Contents>)
    ensures |r| == |asked|
  {
    seq(|asked|, e requires 0 <= e < |asked| => if e == d then Answer(asked[e], |asked[e]|) else asked[e])
  }

  lemma FirstTakesTwo(sent: seq<Contents>, x: nat)
    requires x < |sent| && Overlays(Body(sent[x])) == 0 && Free(Body(sent[x])) >= 2
    ensures HonoursAll(sent, FirstAnswers(sent, x)) && TooMany(FirstAnswers(sent, x)[x])
  {
    AnswerHonours(sent[x], 2);
    TakenOverlays(Body(sent[x]), 2);
  }

  lemma SecondTakes(asked: seq<Contents>, d: nat)
    requires d < |asked|
    ensures HonoursAll(asked, SecondAnswers(asked, d))
    ensures Overlays(Body(SecondAnswers(asked, d)[d])) == Free(Body(asked[d]))
  {
    AnswerHonours(asked[d], |asked[d]|);
    TakenOverlays(Body(asked[d]), |asked[d]|);
  }

  lemma SecondTakesAll(sent: seq<Contents>, x: nat, d: nat)
    requires x < |sent| && d < |sent| && Overlays(Body(sent[x])) == 0 && Free(Body(sent[x])) >= 2
    ensures var first := FirstAnswers(sent, x);
            var second := SecondAnswers(DemoteAll(first), d);
            HonoursAll(sent, first) && HonoursAll(DemoteAll(first), second) && TooMany(first[x]) &&
            Final(first, second) == second && Overlays(Body(second[d])) == Free(Body(Demote(first[d])))
  {
    FirstTakesTwo(sent, x);
    SecondTakes(DemoteAll(FirstAnswers(sent, x)), d);
  }

  lemma UnguardedFails(sent: seq<Contents>, d: nat) returns (first: seq<Contents>, second: seq<Contents>)
    requires d < |sent| && !Guarded(sent, d) && forall e :: 0 <= e < |sent| ==> Overlays(Body(sent[e])) == 0
    ensures HonoursAll(sent, first) && HonoursAll(DemoteAll(first), second)
    ensures Overlays(Body(Final(first, second)[d])) >= 2
  {
    var x := d;
    if Free(Body(sent[d])) <= 3 {
      x :| 0 <= x < |sent| && x != d && Free(Body(sent[x])) > 1;
    }
    first := FirstAnswers(sent, x);
    second := SecondAnswers(DemoteAll(first), d);
    SecondTakesAll(sent, x, d);
    if x == d {
      DemoteFree(first[d]);
      TakenKeeps(Body(sent[d]), 2);
      TakenOverlays(Body(sent[d]), 2);
    } else {
      assert first[d] == sent[d] && !TooMany(sent[d]);
    }
  }

  lemma {:induction false} NothingAskedIsOverlay(s: seq<Slot>)
    requires forall i :: 0 <= i < |s| ==> s[i].kind != OVERLAY
    ensures Overlays(s) == 0
  {
    if s != [] {
      NothingAskedIsOverlay(s[..|s| - 1]);
    }
  }

  lemma RequestHasNone(a: Adapter, d: nat)
    requires Prepareable(a) && d < |a.displays|
    ensures Overlays(Body(Requests(a)[d])) == 0
  {
    var x := a.displays[d];
    assert Body(Requests(a)[d]) == Asked(x.order, a.layers, x.transform, a.minor);
    NothingAskedIsOverlay(Asked(x.order, a.layers, x.transform, a.minor));
  }

  /** The rule, exactly: after prepareAllDisplays a display has at most one overlay, whatever a device
      that keeps its contract answers to one or two prepares, if and only if its request is guarded. The
      condition is about what is sent, before the device is asked. */
  lemma OneOverlay(a: Adapter, d: nat)
    requires Prepareable(a) && d < |a.displays|
    ensures (forall first, second :: Answered(a, first, second) ==> Overlays(Body(Final(first, second)[d])) <= 1) <==>
              Guarded(Requests(a), d)
  {
    var sent := Requests(a);
    if Guarded(sent, d) {
      forall first, second | Answered(a, first, second) ensures Overlays(Body(Final(first, second)[d])) <= 1 {
        GuardedHolds(sent, d, first, second);
      }
    } else {
      forall e | 0 <= e < |sent| ensures Overlays(Body(sent[e])) == 0 {
        RequestHasNone(a, e);
      }
      var first, second := UnguardedFails(sent, d);
      assert Answered(a, first, second);
    }
  }

  // ---------- Which layers the device may take ----------

  /** Composition types that go out without the skip flag. */
  predicate Movable(l: Layer, transform: bool, minor: nat) {
    !(minor < 2 && l.alpha < 1.0) && !transform && !l.noBackground &&
    (l.kind == Device || l.kind == Cursor || (l.kind == Sideband && minor < 4))
  }

  /** What Display::prepare sends for each layer: HWC_FRAMEBUFFER, with the skip flag unless the device may
      take the layer, or HWC_SIDEBAND for a sideband layer that an old HWC1 may take; and the target last. */
  lemma {:induction false} AskedMeans(d: Display, layers: map<nat, Layer>, minor: nat, i: nat)
    requires Known(d.order, layers) && i < |d.order|
    ensures var sent, l := Request(d, layers, minor), layers[d.order[i]];
            |sent| == |d.order| + 1 && sent[|d.order|] == Slot(FRAMEBUFFER_TARGET, false) &&
            (sent[i].skip <==> (minor < 2 && l.alpha < 1.0) || d.transform || l.noBackground || l.kind == Invalid ||
                               l.kind == Client || l.kind == SolidColor || (l.kind == Sideband && minor >= 4)) &&
            sent[i].kind == if l.kind == Sideband && !sent[i].skip then SIDEBAND else FRAMEBUFFER
  {}

  function Movables(order: seq<nat>, layers: map<nat, Layer>, transform: bool, minor: nat): nat
    requires Known(order, layers)
  {
    if order == [] then 0
    else
      var n := |order| - 1;
      Movables(order[..n], layers, transform, minor) + if Movable(layers[order[n]], transform, minor) then 1 else 0
  }

  /** The layers the condition counts: those of type Device and Cursor, and Sideband on an old HWC1. */
  lemma {:induction false} FreeAreMovable(order: seq<nat>, layers: map<nat, Layer>, transform: bool, minor: nat)
    requires Known(order, layers)
    ensures Free(Asked(order, layers, transform, minor)) == Movables(order, layers, transform, minor)
  {
    if order != [] {
      var n := |order| - 1;
      FreeAreMovable(order[..n], layers, transform, minor);
      var asked := Asked(order, layers, transform, minor);
      assert asked[..n] == Asked(order[..n], layers, transform, minor);
    }
  }

  lemma {:induction false} AllMovable(order: seq<nat>, layers: map<nat, Layer>, transform: bool, minor: nat)
    requires Known(order, layers) && forall i :: 0 <= i < |order| ==> Movable(layers[order[i]], transform, minor)
    ensures Movables(order, layers, transform, minor) == |order|
  {
    if order != [] {
      AllMovable(order[..|order| - 1], layers, transform, minor);
    }
  }

  /** Nothing looks at the second answer: on a display with two or more free layers, the device can take
      two of them at first and, with those two demoted, all the others when it is asked again. */
  lemma {:induction false} AllButTwoLeft(a: Adapter, d: nat) returns (first: seq<Contents>, second: seq<Contents>)
    requires Prepareable(a) && d < |a.displays| && Free(Body(Requests(a)[d])) >= 2
    ensures Answered(a, first, second) && TooMany(first[d])
    ensures Overlays(Body(Final(first, second)[d])) == Free(Body(Requests(a)[d])) - 2
  {
    var sent := Requests(a);
    RequestHasNone(a, d);
    first := FirstAnswers(sent, d);
    second := SecondAnswers(DemoteAll(first), d);
    SecondTakesAll(sent, d, d);
    DemoteFree(first[d]);
    TakenKeeps(Body(sent[d]), 2);
    TakenOverlays(Body(sent[d]), 2);
  }

  /** So four ordinary layers are enough to be left with two overlays. */
  lemma {:induction false} SecondAnswerIsNotLimited(order: seq<nat>, l: Layer)
    returns (a: Adapter, first: seq<Contents>, second: seq<Contents>)
    requires |order| == 4 && l == Layer(0, Device, 1.0, false)
    ensures Prepareable(a) && |a.displays| == 1 && a.displays[0].order == order
    ensures forall id :: id in a.layers ==> a.layers[id] == l
    ensures Answered(a, first, second) && TooMany(first[0]) && Overlays(Body(Final(first, second)[0])) == 2
  {
    var layers := map id | id in order :: l;
    a := Adapter(layers, [Display(order, [], [Slot(FRAMEBUFFER_TARGET, false)], None, false)], 0, 4);
    var sent := Requests(a);
    assert Body(sent[0]) == Asked(order, layers, false, 4);
    FreeAreMovable(order, layers, false, 4);
    AllMovable(order, layers, false, 4);
    first, second := AllButTwoLeft(a, 0);
  }
}
