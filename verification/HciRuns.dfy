/** What holds in every interleaving of the HCI layer's sections. */
module HciRuns {
  import opened HciLayer
  import opened Options
  import opened Sequences

  /** An event on its way through filter_incoming_event, between its sections. */
  datatype Handler = Handler(event: Event, entry: Option<Command>, credited: bool)

  datatype System = System(layer: Layer, handlers: seq<Handler>, arrived: multiset<nat>)

  datatype Step =
    | LoopUp
    | Transmit(c: Command)
    | RunTask
    | Receive(e: Event)
    | Credit(i: nat)
    | Finish(i: nat)
    | TimerFreed
    | LoopDown

  /** One atomic step; a step that is not enabled changes nothing. */
  function Next(s: System, step: Step): System {
    var l := s.layer;
    match step
    case LoopUp => if l.phase == Starting then s.(layer := l.(phase := Up)) else s
    case Transmit(c) => if c !in l.issued then s.(layer := EnqueueCommand(l, c)) else s
    case RunTask => if l.phase == Up && l.posted != [] then s.(layer := EventCommandReady(l)) else s
    case Receive(e) =>
      if e.packet in s.arrived then s else
        var (l', entry) := TakeWaiting(l, e.opcode);
        System(l', s.handlers + [Handler(e, entry, false)], s.arrived + multiset{e.packet})
    case Credit(i) =>
      if i < |s.handlers| && !s.handlers[i].credited then
        s.(layer := ProcessCredits(l, s.handlers[i].event.credits),
           handlers := s.handlers[i := s.handlers[i].(credited := true)])
      else s
    case Finish(i) =>
      if i < |s.handlers| && s.handlers[i].credited then
        s.(layer := Conclude(l, s.handlers[i].event, s.handlers[i].entry), handlers := Without(s.handlers, i))
      else s
    case TimerFreed => s.(layer := FreeTimer(l))
    case LoopDown => s.(layer := LoopGone(l))
  }

  function Run(s: System, steps: seq<Step>): System
    decreases |steps|
  {
    if steps == [] then s else Next(Run(s, steps[..|steps| - 1]), steps[|steps| - 1])
  }

  const START := System(INITIAL, [], multiset{})

  // ---------- Order ----------

  /** Commands leave in the order in which they were accepted. */
  ghost predicate Ordered(l: Layer) {
    l.accepted == l.sent + l.posted + l.lost + l.queue &&
    (l.credits > 0 ==> l.queue == []) &&
    (l.phase != Down ==> l.lost == []) && (l.phase != Up ==> l.posted == [])
  }

  lemma {:induction false} EnqueueOrdered(l: Layer, c: Command)
    requires Ordered(l)
    ensures Ordered(EnqueueCommand(l, c))
  {
    if l.credits > 0 && l.phase == Up {
      assert l.sent + l.posted + [] + [] + [c] == l.sent + (l.posted + [c]) + [] + [];
    } else {
      assert l.sent + l.posted + l.lost + l.queue + [c] == l.sent + l.posted + l.lost + (l.queue + [c]);
    }
  }

  lemma {:induction false} CommandReadyOrdered(l: Layer)
    requires Ordered(l) && l.posted != [] && l.phase == Up
    ensures Ordered(EventCommandReady(l))
  {
    assert l.posted == [l.posted[0]] + l.posted[1..];
    assert l.sent + [l.posted[0]] + l.posted[1..] == l.sent + l.posted;
  }

  lemma {:induction false} CreditsOrdered(l: Layer, credits: nat)
    requires Ordered(l)
    ensures Ordered(ProcessCredits(l, credits))
  {
    var l' := ProcessCredits(l, credits);
    if l.phase == Up {
      var n := |l.queue| - |l'.queue|;
      assert l.queue == l.queue[..n] + l.queue[n..];
      assert l.sent + l.posted + [] + (l.queue[..n] + l.queue[n..]) == l.sent + (l.posted + l.queue[..n]) + [] + l.queue[n..];
    }
  }

  lemma {:induction false} LoopGoneOrdered(l: Layer)
    requires Ordered(l)
    ensures Ordered(LoopGone(l))
  {
    if l.phase == Up {
      assert l.sent + l.posted + [] + l.queue == l.sent + [] + l.posted + l.queue;
    }
  }

  lemma {:induction false} OrderKept(s: System, step: Step)
    requires Ordered(s.layer)
    ensures Ordered(Next(s, step).layer)
  {
    match step
    case Transmit(c) => EnqueueOrdered(s.layer, c);
    case RunTask => if s.layer.phase == Up && s.layer.posted != [] { CommandReadyOrdered(s.layer); }
    case Credit(i) => if i < |s.handlers| { CreditsOrdered(s.layer, s.handlers[i].event.credits); }
    case LoopDown => LoopGoneOrdered(s.layer);
    case _ =>
  }

  // ---------- Credits ----------

  /** Credits left and commands outstanding stay within what the last credit event allowed for. */
  ghost predicate Conserved(l: Layer) {
    l.credits + |l.posted| + |l.pending| <= l.bound
  }

  lemma {:induction false} CreditsKept(s: System, step: Step)
    requires Conserved(s.layer)
    ensures Conserved(Next(s, step).layer)
  {}

  /** No step posts a command that would bring those outstanding above the bound; and the bound is the
      number the controller announced, plus the tasks that had been posted but not yet run. */
  lemma {:induction false} NoPostAboveBound(s: System, step: Step)
    requires Conserved(s.layer)
    ensures var (l, l') := (s.layer, Next(s, step).layer);
            |l'.posted| + |l'.pending| > |l.posted| + |l.pending| ==> |l'.posted| + |l'.pending| <= l'.bound
    ensures var (l, l') := (s.layer, Next(s, step).layer);
            l'.bound != l.bound ==> step.Credit? && step.i < |s.handlers| &&
                                    l'.bound == s.handlers[step.i].event.credits + |l.posted|
  {}

  function Outstanding(l: Layer): nat { |l.posted| + |l.pending| }

  function EnqueueAll(l: Layer, cs: seq<Command>): Layer
    decreases |cs|
  {
    if cs == [] then l else EnqueueAll(EnqueueCommand(l, cs[0]), cs[1..])
  }

  lemma {:induction false} EnqueueAllOutstanding(l: Layer, cs: seq<Command>)
    requires l.phase == Up && l.credits >= 0
    ensures var l' := EnqueueAll(l, cs);
            l'.phase == Up && l'.credits >= 0 && l'.pending == l.pending &&
            Outstanding(l') + l'.credits == Outstanding(l) + l.credits &&
            (|cs| >= l.credits ==> l'.credits == 0)
    decreases |cs|
  {
    if cs != [] {
      EnqueueAllOutstanding(EnqueueCommand(l, cs[0]), cs[1..]);
    }
  }

  function Copies(c: Command, n: nat): (s: seq<Command>)
    ensures |s| == n
  {
    seq(n, i => c)
  }

  /** Section 4.4 of Volume 2, Part E of the Bluetooth Core Specification: no more commands outstanding
      than the controller last allowed. Whatever is enqueued after a credit event, the layer keeps to it
      exactly when no task it posted before is still waiting in the message loop and the controller allows
      at least what it has already got. */
  lemma {:induction false} AllowanceHoldsIffDrained(l: Layer, c: nat)
    requires l.phase == Up
    ensures (forall cs: seq<Command> :: Outstanding(EnqueueAll(ProcessCredits(l, c), cs)) <= c) <==>
              l.posted == [] && |l.pending| <= c
  {
    var l1 := ProcessCredits(l, c);
    if |l.pending| > c {
      assert Outstanding(EnqueueAll(l1, [])) >= |l.pending|;
    } else {
      forall cs: seq<Command>
        ensures Outstanding(EnqueueAll(l1, cs)) <= c + |l.posted|
      {
        EnqueueAllOutstanding(l1, cs);
      }
      if l.posted != [] {
        var cs := Copies(l.posted[0], l1.credits);
        EnqueueAllOutstanding(l1, cs);
        assert Outstanding(EnqueueAll(l1, cs)) == c + |l.posted|;
      }
    }
  }

  lemma {:induction false} RunMore(s: System, steps: seq<Step>, step: Step)
    ensures Run(s, steps + [step]) == Next(Run(s, steps), step)
  {
    assert (steps + [step])[..|steps|] == steps;
  }

  lemma {:induction false} OneCreditTooMany(a: Command, b: Command, e: Event)
    requires a != b && e == Event(true, 0, 1, 0)
    ensures var s := Next(Next(Next(Next(START, LoopUp), Transmit(a)), Receive(e)), Credit(0));
            s.handlers == [Handler(e, None, true)] && s.layer.posted == [a] && Outstanding(Next(s, Transmit(b)).layer) == 2
  {
    var s2 := Next(Next(START, LoopUp), Transmit(a));
    assert s2.layer.posted == [a] && s2.layer.pending == [] && s2.layer.credits == 0 && s2.layer.issued == multiset{a};
    var s3 := Next(s2, Receive(e));
    assert Waiting([], 0) == None && s3.layer == s2.layer && s3.handlers == [Handler(e, None, false)];
    var s4 := Next(s3, Credit(0));
    assert s4.layer.credits == 1 && s4.layer.posted == [a] && s4.layer.issued == multiset{a};
  }

  /** A run that gets there: a command is posted, a Command Complete with the empty opcode announces one
      credit before the message loop has sent it, and a second command is posted on that credit. */
  lemma {:induction false} AllowanceIsBroken(a: Command, b: Command)
    requires a != b
    ensures var e := Event(true, 0, 1, 0);
            var s := Run(START, [LoopUp] + [Transmit(a)] + [Receive(e)] + [Credit(0)]);
            s.handlers == [Handler(e, None, true)] && s.layer.posted == [a] && Outstanding(Next(s, Transmit(b)).layer) == 2
  {
    var e := Event(true, 0, 1, 0);
    assert [] + [LoopUp] == [LoopUp];
    RunMore(START, [], LoopUp);
    RunMore(START, [LoopUp], Transmit(a));
    RunMore(START, [LoopUp] + [Transmit(a)], Receive(e));
    RunMore(START, [LoopUp] + [Transmit(a)] + [Receive(e)], Credit(0));
    OneCreditTooMany(a, b, e);
  }

  // ---------- The command timer ----------

  /** When no event is between its sections, the timer watches the oldest command awaiting a response. */
  ghost predicate TimerWatches(s: System) {
    (forall h :: h in s.handlers ==> h.entry == None) && s.layer.timerLive ==> s.layer.timer == Front(s.layer.pending)
  }

  lemma {:induction false} TimerKept(s: System, step: Step)
    requires TimerWatches(s)
    ensures TimerWatches(Next(s, step))
  {
    match step
    case Receive(e) =>
      var s' := Next(s, step);
      if e.packet !in s.arrived {
        assert s'.handlers[|s.handlers|] in s'.handlers;
        assert forall h :: h in s.handlers ==> h in s'.handlers;
      }
    case Credit(i) =>
      if i < |s.handlers| {
        HandlersKeepEntries(s.handlers, i);
      }
    case Finish(i) =>
      if i < |s.handlers| && s.handlers[i].entry == None {
        var rest := Without(s.handlers, i);
        assert s.handlers == rest[..i] + [s.handlers[i]] + rest[i..];
      }
    case _ =>
  }

  lemma {:induction false} HandlersKeepEntries(hs: seq<Handler>, i: nat)
    requires i < |hs|
    ensures var hs' := hs[i := hs[i].(credited := true)];
            (forall h :: h in hs' ==> h.entry == None) ==> (forall h :: h in hs ==> h.entry == None)
  {
    var hs' := hs[i := hs[i].(credited := true)];
    if forall h :: h in hs' ==> h.entry == None {
      forall h | h in hs ensures h.entry == None {
        var j :| 0 <= j < |hs| && hs[j] == h;
        assert hs'[j] in hs';
      }
    }
  }

  // ---------- Resources, each exactly once ----------

  /** A command's buffer, its wait entry and its future, and an event packet. */
  datatype Resource = Buffer(c: Command) | Entry(c: Command) | Promise(c: Command) | Packet(p: nat)

  /** How often an action ends the life of a resource: by freeing it, handing it over or fulfilling it. */
  function Ended(a: Action, r: Resource): nat {
    if match r
       case Buffer(c) => a == FreeCommand(c) || a == CallStatus(c)
       case Entry(c) => a == FreeEntry(c)
       case Promise(c) => a.FutureReady? && a.command == c
       case Packet(p) => (a.FreePacket? || a.CallComplete? || a.FutureReady?) && a.packet == p
    then 1 else 0
  }

  function Ends(log: seq<Action>, r: Resource): nat
    decreases |log|
  {
    if log == [] then 0 else Ended(log[0], r) + Ends(log[1..], r)
  }

  /** What an event on its way has in its hands. */
  function Holds(h: Handler, r: Resource): nat {
    if (if r.Packet? then h.event.packet == r.p else h.entry == Some(r.c)) then 1 else 0
  }

  function Held(hs: seq<Handler>, r: Resource): nat
    decreases |hs|
  {
    if hs == [] then 0 else Holds(hs[0], r) + Held(hs[1..], r)
  }

  function Count(s: seq<Command>, c: Command): nat
    decreases |s|
  {
    if s == [] then 0 else (if s[0] == c then 1 else 0) + Count(s[1..], c)
  }

  lemma {:induction false} EndsConcat(s: seq<Action>, t: seq<Action>, r: Resource)
    ensures Ends(s + t, r) == Ends(s, r) + Ends(t, r)
    decreases |s|
  {
    if s == [] {
      assert s + t == t;
    } else {
      assert (s + t)[1..] == s[1..] + t;
      EndsConcat(s[1..], t, r);
    }
  }

  lemma {:induction false} HeldConcat(s: seq<Handler>, t: seq<Handler>, r: Resource)
    ensures Held(s + t, r) == Held(s, r) + Held(t, r)
    decreases |s|
  {
    if s == [] {
      assert s + t == t;
    } else {
      assert (s + t)[1..] == s[1..] + t;
      HeldConcat(s[1..], t, r);
    }
  }

  lemma {:induction false} CountConcat(s: seq<Command>, t: seq<Command>, c: Command)
    ensures Count(s + t, c) == Count(s, c) + Count(t, c)
    decreases |s|
  {
    if s == [] {
      assert s + t == t;
    } else {
      assert (s + t)[1..] == s[1..] + t;
      CountConcat(s[1..], t, c);
    }
  }

  lemma {:induction false} HeldSplit(hs: seq<Handler>, i: nat, h: Handler, r: Resource)
    requires i < |hs|
    ensures Held(hs, r) == Held(Without(hs, i), r) + Holds(hs[i], r)
    ensures Held(hs[i := h], r) == Held(Without(hs, i), r) + Holds(h, r)
  {
    HeldConcat(hs[..i], hs[i + 1..], r);
    HeldConcat(hs[..i], [hs[i]] + hs[i + 1..], r);
    HeldConcat(hs[..i], [h] + hs[i + 1..], r);
    assert hs == hs[..i] + ([hs[i]] + hs[i + 1..]) && hs[i := h] == hs[..i] + ([h] + hs[i + 1..]);
  }

  lemma {:induction false} CountSplit(s: seq<Command>, i: nat, c: Command)
    requires i < |s|
    ensures Count(s, c) == Count(Without(s, i), c) + (if s[i] == c then 1 else 0)
  {
    CountConcat(s[..i], s[i + 1..], c);
    CountConcat(s[..i], [s[i]] + s[i + 1..], c);
    assert s == s[..i] + ([s[i]] + s[i + 1..]);
  }

  /** The queues of a layer, counted together. */
  function InLayer(l: Layer, c: Command): nat {
    Count(l.queue, c) + Count(l.posted, c) + Count(l.lost, c) + Count(l.pending, c)
  }

  /** Where a command with its buffer and wait entry can be while it is alive. */
  function Alive(s: System, c: Command): nat {
    InLayer(s.layer, c) + Held(s.handlers, Buffer(c))
  }

  /** Every command and packet is alive in one place or has ended once; a futured command that has
      ended was answered, unless it was dropped when it was issued. */
  ghost predicate Accounted(s: System, c: Command, p: nat) {
    var l := s.layer;
    l.issued[c] <= 1 &&
    l.issued[c] == Alive(s, c) + Ends(l.log, Buffer(c)) == Alive(s, c) + Ends(l.log, Entry(c)) &&
    Ends(l.log, Promise(c)) == (if c.Futured() then Ends(l.log, Entry(c)) - Count(l.dropped, c) else 0) &&
    s.arrived[p] <= 1 &&
    s.arrived[p] == Held(s.handlers, Packet(p)) + Ends(l.log, Packet(p))
  }

  lemma {:induction false} EndsWhen(s: seq<Action>, b: bool, x: Action, r: Resource)
    ensures Ends(s + When(b, x), r) == Ends(s, r) + if b then Ended(x, r) else 0
  {
    EndsConcat(s, When(b, x), r);
    assert Ends([x], r) == Ended(x, r) + Ends([x][1..], r);
  }

  lemma {:induction false} SumOfConclusion(e: Event, c: Command, r: Resource)
    ensures Ends(Conclusion(e, Some(c)), r)
         == (if e.complete && c.OnComplete() then Ended(CallComplete(c, e.packet), r) else 0)
          + (if !e.complete && c.OnStatus() then Ended(CallStatus(c), r) else 0)
          + (if c.Futured() then Ended(FutureReady(c, e.packet), r) else 0)
          + (if !c.Futured() && !(e.complete && c.OnComplete()) then Ended(FreePacket(e.packet), r) else 0)
          + (if e.complete || !c.OnStatus() then Ended(FreeCommand(c), r) else 0) + Ended(FreeEntry(c), r)
  {
    var a1 := When(e.complete && c.OnComplete(), CallComplete(c, e.packet));
    var a2 := a1 + When(!e.complete && c.OnStatus(), CallStatus(c));
    var a3 := a2 + When(c.Futured(), FutureReady(c, e.packet));
    var a4 := a3 + When(!c.Futured() && !(e.complete && c.OnComplete()), FreePacket(e.packet));
    var a5 := a4 + When(e.complete || !c.OnStatus(), FreeCommand(c));
    assert [] + a1 == a1;
    EndsWhen([], e.complete && c.OnComplete(), CallComplete(c, e.packet), r);
    EndsWhen(a1, !e.complete && c.OnStatus(), CallStatus(c), r);
    EndsWhen(a2, c.Futured(), FutureReady(c, e.packet), r);
    EndsWhen(a3, !c.Futured() && !(e.complete && c.OnComplete()), FreePacket(e.packet), r);
    EndsWhen(a4, e.complete || !c.OnStatus(), FreeCommand(c), r);
    EndsWhen(a5, true, FreeEntry(c), r);
  }

  /** Concluding an event ends its packet once, and its entry's command, wait entry and future once each. */
  lemma {:induction false} ConclusionEnds(e: Event, entry: Option<Command>, r: Resource)
    ensures Ends(Conclusion(e, entry), r)
         == (match r
             case Packet(p) => if e.packet == p then 1 else 0
             case Promise(c) => if entry == Some(c) && c.Futured() then 1 else 0
             case _ => if entry == Some(r.c) then 1 else 0)
  {
    if entry.Some? {
      SumOfConclusion(e, entry.value, r);
    } else {
      EndsWhen([], true, FreePacket(e.packet), r);
      assert [] + When(true, FreePacket(e.packet)) == [FreePacket(e.packet)];
    }
  }

  lemma {:induction false} EnqueueCounts(l: Layer, x: Command, c: Command)
    ensures var l' := EnqueueCommand(l, x);
            InLayer(l', c) + Count(l'.dropped, c) == InLayer(l, c) + Count(l.dropped, c) + (if x == c then 1 else 0)
    ensures var l' := EnqueueCommand(l, x);
            if l.credits > 0 && l.phase != Up then l'.log == l.log + [FreeCommand(x), FreeEntry(x)] && InLayer(l', c) == InLayer(l, c)
            else l'.log == l.log && l'.dropped == l.dropped
  {
    CountConcat(l.queue, [x], c);
    CountConcat(l.posted, [x], c);
    CountConcat(l.dropped, [x], c);
    assert Count([x], c) == if x == c then 1 else 0;
  }

  lemma {:induction false} CreditCounts(l: Layer, credits: nat, c: Command)
    ensures InLayer(ProcessCredits(l, credits), c) == InLayer(l, c)
  {
    var l' := ProcessCredits(l, credits);
    var n := |l.queue| - |l'.queue|;
    if l.phase == Up {
      assert l.queue == l.queue[..n] + l.queue[n..];
      CountConcat(l.queue[..n], l.queue[n..], c);
      CountConcat(l.posted, l.queue[..n], c);
    }
  }

  lemma {:induction false} TransmitAccounted(s: System, x: Command, c: Command, p: nat)
    requires Accounted(s, c, p) && x !in s.layer.issued
    ensures Accounted(Next(s, Transmit(x)), c, p)
  {
    EnqueueCounts(s.layer, x, c);
    DropEnds(s.layer.log, x, Buffer(c));
    DropEnds(s.layer.log, x, Entry(c));
    DropEnds(s.layer.log, x, Promise(c));
    DropEnds(s.layer.log, x, Packet(p));
  }

  lemma {:induction false} DropEnds(log: seq<Action>, x: Command, r: Resource)
    ensures Ends(log + [FreeCommand(x), FreeEntry(x)], r)
         == Ends(log, r) + Ended(FreeCommand(x), r) + Ended(FreeEntry(x), r)
  {
    var drop := [FreeCommand(x), FreeEntry(x)];
    EndsConcat(log, drop, r);
    assert drop[1..] == [FreeEntry(x)];
    assert Ends(drop, r) == Ended(drop[0], r) + Ends(drop[1..], r);
  }

  lemma {:induction false} RunTaskAccounted(s: System, c: Command, p: nat)
    requires Accounted(s, c, p) && s.layer.posted != []
    ensures Accounted(s.(layer := EventCommandReady(s.layer)), c, p)
  {
    var x := s.layer.posted[0];
    CountConcat(s.layer.pending, [x], c);
    assert Count([x], c) == if x == c then 1 else 0;
  }

  lemma {:induction false} ReceiveAccounted(s: System, e: Event, c: Command, p: nat)
    requires Accounted(s, c, p)
    ensures Accounted(Next(s, Receive(e)), c, p)
  {
    var h := Handler(e, TakeWaiting(s.layer, e.opcode).1, false);
    HeldConcat(s.handlers, [h], Buffer(c));
    HeldConcat(s.handlers, [h], Packet(p));
    assert Held([h], Buffer(c)) == Holds(h, Buffer(c)) && Held([h], Packet(p)) == Holds(h, Packet(p));
    var w := Waiting(s.layer.pending, e.opcode);
    if w.Some? && w.value < |s.layer.pending| {
      CountSplit(s.layer.pending, w.value, c);
    }
  }

  lemma {:induction false} CreditAccounted(s: System, i: nat, c: Command, p: nat)
    requires Accounted(s, c, p)
    ensures Accounted(Next(s, Credit(i)), c, p)
  {
    if i < |s.handlers| && !s.handlers[i].credited {
      var h := s.handlers[i].(credited := true);
      HeldSplit(s.handlers, i, h, Buffer(c));
      HeldSplit(s.handlers, i, h, Packet(p));
      CreditCounts(s.layer, h.event.credits, c);
    }
  }

  lemma {:induction false} FinishAccounted(s: System, i: nat, c: Command, p: nat)
    requires Accounted(s, c, p)
    ensures Accounted(Next(s, Finish(i)), c, p)
  {
    if i < |s.handlers| && s.handlers[i].credited {
      var h := s.handlers[i];
      var a := Conclusion(h.event, h.entry);
      HeldSplit(s.handlers, i, h, Buffer(c));
      HeldSplit(s.handlers, i, h, Packet(p));
      ConclusionCounts(s.layer.log, h.event, h.entry, Buffer(c));
      ConclusionCounts(s.layer.log, h.event, h.entry, Entry(c));
      ConclusionCounts(s.layer.log, h.event, h.entry, Promise(c));
      ConclusionCounts(s.layer.log, h.event, h.entry, Packet(p));
    }
  }

  lemma {:induction false} ConclusionCounts(log: seq<Action>, e: Event, entry: Option<Command>, r: Resource)
    ensures Ends(log + Conclusion(e, entry), r) == Ends(log, r) +
              (match r
               case Packet(p) => if e.packet == p then 1 else 0
               case Promise(c) => if entry == Some(c) && c.Futured() then 1 else 0
               case _ => if entry == Some(r.c) then 1 else 0)
  {
    EndsConcat(log, Conclusion(e, entry), r);
    ConclusionEnds(e, entry, r);
  }

  lemma {:induction false} AccountKept(s: System, step: Step, c: Command, p: nat)
    requires Accounted(s, c, p) && Ordered(s.layer)
    ensures Accounted(Next(s, step), c, p)
  {
    match step
    case Transmit(x) => if x !in s.layer.issued { TransmitAccounted(s, x, c, p); }
    case RunTask => if s.layer.posted != [] { RunTaskAccounted(s, c, p); }
    case Receive(e) => ReceiveAccounted(s, e, c, p);
    case Credit(i) => CreditAccounted(s, i, c, p);
    case Finish(i) => FinishAccounted(s, i, c, p);
    case _ =>
  }

  // ---------- Every run ----------

  /** One session, any number of threads and events, any interleaving. */
  lemma {:induction false} EveryRun(steps: seq<Step>, c: Command, p: nat)
    ensures var s := Run(START, steps);
            Ordered(s.layer) && Conserved(s.layer) && TimerWatches(s) && Accounted(s, c, p)
    decreases |steps|
  {
    if steps != [] {
      var s, step := Run(START, steps[..|steps| - 1]), steps[|steps| - 1];
      EveryRun(steps[..|steps| - 1], c, p);
      OrderKept(s, step);
      CreditsKept(s, step);
      TimerKept(s, step);
      AccountKept(s, step, c, p);
    }
  }

  /** Commands reach the controller in the order in which they were accepted. */
  lemma {:induction false} CommandsLeaveInOrder(steps: seq<Step>)
    ensures var l := Run(START, steps).layer;
            l.sent <= l.accepted && (l.phase == Up ==> l.accepted == l.sent + l.posted + l.queue)
  {
    EveryRun(steps, Command(0, 0, Future), 0);
    SentFirst(Run(START, steps).layer);
  }

  lemma {:induction false} SentFirst(l: Layer)
    requires Ordered(l)
    ensures l.sent <= l.accepted && (l.phase == Up ==> l.accepted == l.sent + l.posted + l.queue)
  {
    assert l.sent + l.posted + l.lost + l.queue == l.sent + (l.posted + l.lost + l.queue);
    if l.phase == Up {
      assert l.sent + l.posted + [] + l.queue == l.sent + l.posted + l.queue;
    }
  }

  /** No command buffer, wait entry or event packet ends twice and no future is fulfilled twice; what has
      not ended is still somewhere in the layer. A futured command has been answered, was dropped for want
      of a message loop, or is still alive. */
  lemma {:induction false} EverythingEndsOnce(steps: seq<Step>, c: Command, p: nat)
    ensures var s := Run(START, steps);
            Ends(s.layer.log, Buffer(c)) + Alive(s, c) == Ends(s.layer.log, Entry(c)) + Alive(s, c) == s.layer.issued[c] <= 1
    ensures var s := Run(START, steps);
            if c.Futured() then Ends(s.layer.log, Promise(c)) + Count(s.layer.dropped, c) + Alive(s, c) == s.layer.issued[c]
            else Ends(s.layer.log, Promise(c)) == 0
    ensures var s := Run(START, steps);
            Ends(s.layer.log, Packet(p)) + Held(s.handlers, Packet(p)) == s.arrived[p] <= 1
  {
    EveryRun(steps, c, p);
  }
}
