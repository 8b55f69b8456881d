/** That everyone who waits for an event is told, in every interleaving of the HCI layer's sections. */
module HciTold {
  import opened HciLayer
  import opened HciRuns
  import opened Options

  /** The actions that end an event with an entry. */
  ghost predicate Fits(e: Event, c: Command, a: Action) {
    match a
    case CallComplete(x, p) => x == c && p == e.packet && e.complete && c.OnComplete()
    case CallStatus(x) => x == c && !e.complete && c.OnStatus()
    case FutureReady(x, p) => x == c && p == e.packet && c.Futured()
    case FreePacket(p) => p == e.packet && !c.Futured() && !(e.complete && c.OnComplete())
    case FreeCommand(x) => x == c && !(!e.complete && c.OnStatus())
    case FreeEntry(x) => x == c
  }

  lemma {:induction false} InWhen(s: seq<Action>, b: bool, x: Action, a: Action)
    ensures a in s + When(b, x) <==> a in s || (b && a == x)
  {}

  lemma {:induction false} ConclusionActs(e: Event, c: Command, a: Action)
    ensures var acts := Conclusion(e, Some(c));
            (a in acts <==> Fits(e, c, a)) && acts != [] && acts[|acts| - 1] == FreeEntry(c)
  {
    var a1 := When(e.complete && c.OnComplete(), CallComplete(c, e.packet));
    var a2 := a1 + When(!e.complete && c.OnStatus(), CallStatus(c));
    var a3 := a2 + When(c.Futured(), FutureReady(c, e.packet));
    var a4 := a3 + When(!c.Futured() && !(e.complete && c.OnComplete()), FreePacket(e.packet));
    var a5 := a4 + When(e.complete || !c.OnStatus(), FreeCommand(c));
    InWhen(a1, !e.complete && c.OnStatus(), CallStatus(c), a);
    InWhen(a2, c.Futured(), FutureReady(c, e.packet), a);
    InWhen(a3, !c.Futured() && !(e.complete && c.OnComplete()), FreePacket(e.packet), a);
    InWhen(a4, e.complete || !c.OnStatus(), FreeCommand(c), a);
    InWhen(a5, true, FreeEntry(c), a);
    assert Conclusion(e, Some(c)) == a5 + When(true, FreeEntry(c));
  }

  lemma {:induction false} FinishLog(s: System, i: nat)
    requires i < |s.handlers| && s.handlers[i].credited
    ensures Next(s, Finish(i)).layer.log == s.layer.log + Conclusion(s.handlers[i].event, s.handlers[i].entry)
  {}

  /** What the end of an event does, action by action: without an entry the packet is freed. With one, a
      complete callback is called for Command Complete and a status callback for Command Status; a future
      gets the packet of either; the packet is freed if nobody was given it, and the command unless a status
      callback was; and the entry is freed last. */
  lemma {:induction false} FinishActs(s: System, i: nat, a: Action)
    requires i < |s.handlers| && s.handlers[i].credited
    ensures var e, n := s.handlers[i].event, Next(s, Finish(i)).layer.log;
            s.layer.log <= n &&
            match s.handlers[i].entry
            case None => n[|s.layer.log|..] == [FreePacket(e.packet)]
            case Some(c) =>
              var acts := n[|s.layer.log|..];
              (a in acts <==>
                 match a
                 case CallComplete(x, p) => x == c && p == e.packet && e.complete && c.OnComplete()
                 case CallStatus(x) => x == c && !e.complete && c.OnStatus()
                 case FutureReady(x, p) => x == c && p == e.packet && c.Futured()
                 case FreePacket(p) => p == e.packet && !c.Futured() && !(e.complete && c.OnComplete())
                 case FreeCommand(x) => x == c && (e.complete || !c.OnStatus())
                 case FreeEntry(x) => x == c) &&
              acts != [] && acts[|acts| - 1] == FreeEntry(c)
  {
    var h, log := s.handlers[i], s.layer.log;
    var done := Conclusion(h.event, h.entry);
    FinishLog(s, i);
    assert (log + done)[|log|..] == done;
    if h.entry.Some? {
      ConclusionActs(h.event, h.entry.value, a);
    }
  }

  datatype Kind = Completed | Answered | Ready

  /** How often a command's complete callback or status callback was called, or its future made ready. */
  function Told(log: seq<Action>, c: Command, kind: Kind): nat
    decreases |log|
  {
    if log == [] then 0 else Told(log[..|log| - 1], c, kind) + if Tells(log[|log| - 1], c, kind) then 1 else 0
  }

  predicate Tells(a: Action, c: Command, kind: Kind) {
    match kind
    case Completed => a.CallComplete? && a.command == c
    case Answered => a == CallStatus(c)
    case Ready => a.FutureReady? && a.command == c
  }

  lemma {:induction false} ToldMore(log: seq<Action>, more: seq<Action>, c: Command, kind: Kind)
    ensures Told(log + more, c, kind) == Told(log, c, kind) + Told(more, c, kind)
    decreases |more|
  {
    if more == [] {
      assert log + more == log;
    } else {
      var n := |more| - 1;
      assert (log + more)[..|log| + n] == log + more[..n];
      ToldMore(log, more[..n], c, kind);
    }
  }

  lemma {:induction false} ToldWhen(log: seq<Action>, b: bool, a: Action, c: Command, kind: Kind)
    ensures Told(log + When(b, a), c, kind) == Told(log, c, kind) + if b && Tells(a, c, kind) then 1 else 0
  {
    if b {
      assert (log + [a])[..|log|] == log;
    } else {
      assert log + [] == log;
    }
  }

  function Once(b: bool, a: Action, c: Command, kind: Kind): nat {
    if b && Tells(a, c, kind) then 1 else 0
  }

  lemma {:induction false} FirstTold(b: bool, x: Action, c: Command, kind: Kind)
    ensures Told(When(b, x), c, kind) == Once(b, x, c, kind)
  {
    ToldWhen([], b, x, c, kind);
    assert [] + When(b, x) == When(b, x);
  }

  lemma {:induction false} TwoTold(log: seq<Action>, b1: bool, x1: Action, b2: bool, x2: Action, c: Command, kind: Kind)
    ensures Told(log + When(b1, x1) + When(b2, x2), c, kind) == Told(log, c, kind) + Once(b1, x1, c, kind) + Once(b2, x2, c, kind)
  {
    ToldWhen(log, b1, x1, c, kind);
    ToldWhen(log + When(b1, x1), b2, x2, c, kind);
  }

  lemma {:induction false} SixTold(b1: bool, x1: Action, b2: bool, x2: Action, b3: bool, x3: Action, b4: bool, x4: Action,
                                   b5: bool, x5: Action, x6: Action, c: Command, kind: Kind)
    ensures Told(When(b1, x1) + When(b2, x2) + When(b3, x3) + When(b4, x4) + When(b5, x5) + [x6], c, kind) ==
            Once(b1, x1, c, kind) + Once(b2, x2, c, kind) + Once(b3, x3, c, kind) + Once(b4, x4, c, kind) +
            Once(b5, x5, c, kind) + Once(true, x6, c, kind)
  {
    var a1 := When(b1, x1);
    var a3 := a1 + When(b2, x2) + When(b3, x3);
    FirstTold(b1, x1, c, kind);
    TwoTold(a1, b2, x2, b3, x3, c, kind);
    TwoTold(a3, b4, x4, b5, x5, c, kind);
    ToldWhen(a3 + When(b4, x4) + When(b5, x5), true, x6, c, kind);
  }

  lemma {:induction false} EntryTells(e: Event, x: Command, c: Command, kind: Kind)
    ensures Told(Conclusion(e, Some(x)), c, kind)
         == Once(e.complete && x.OnComplete(), CallComplete(x, e.packet), c, kind)
          + Once(!e.complete && x.OnStatus(), CallStatus(x), c, kind)
          + Once(x.Futured(), FutureReady(x, e.packet), c, kind)
  {
    SixTold(e.complete && x.OnComplete(), CallComplete(x, e.packet), !e.complete && x.OnStatus(), CallStatus(x),
            x.Futured(), FutureReady(x, e.packet), !x.Futured() && !(e.complete && x.OnComplete()), FreePacket(e.packet),
            e.complete || !x.OnStatus(), FreeCommand(x), FreeEntry(x), c, kind);
  }

  lemma {:induction false} ConclusionTells(e: Event, entry: Option<Command>, c: Command, kind: Kind)
    ensures Told(Conclusion(e, entry), c, kind) ==
            if entry == Some(c) && (match kind
                                    case Completed => e.complete && c.OnComplete()
                                    case Answered => !e.complete && c.OnStatus()
                                    case Ready => c.Futured()) then 1 else 0
  {
    match entry
    case None =>
      ToldWhen([], true, FreePacket(e.packet), c, kind);
      assert [] + When(true, FreePacket(e.packet)) == Conclusion(e, entry);
    case Some(x) => EntryTells(e, x, c, kind);
  }

  /** This step ends the command's wait with a Command Complete, or with a Command Status. */
  ghost predicate Concludes(s: System, step: Step, c: Command, complete: bool) {
    step.Finish? && step.i < |s.handlers| && s.handlers[step.i].credited &&
    s.handlers[step.i].entry == Some(c) && s.handlers[step.i].event.complete == complete
  }

  ghost predicate EndedBy(steps: seq<Step>, c: Command, complete: bool) {
    exists k :: 0 <= k < |steps| && Concludes(Run(START, steps[..k]), steps[k], c, complete)
  }

  lemma {:induction false} EndedStays(steps: seq<Step>, step: Step, c: Command, complete: bool)
    ensures EndedBy(steps, c, complete) ==> EndedBy(steps + [step], c, complete)
    ensures Concludes(Run(START, steps), step, c, complete) ==> EndedBy(steps + [step], c, complete)
  {
    var more := steps + [step];
    assert more[..|steps|] == steps && more[|steps|] == step;
    if EndedBy(steps, c, complete) {
      var k :| 0 <= k < |steps| && Concludes(Run(START, steps[..k]), steps[k], c, complete);
      assert more[..k] == steps[..k] && more[k] == steps[k];
    }
  }

  lemma {:induction false} EndedBefore(steps: seq<Step>, step: Step, c: Command, complete: bool)
    requires EndedBy(steps + [step], c, complete)
    ensures EndedBy(steps, c, complete) || Concludes(Run(START, steps), step, c, complete)
  {
    var more := steps + [step];
    var k :| 0 <= k < |more| && Concludes(Run(START, more[..k]), more[k], c, complete);
    if k < |steps| {
      assert more[..k] == steps[..k] && more[k] == steps[k];
    } else {
      assert more[..k] == steps && more[k] == step;
    }
  }

  lemma {:induction false} EndedMore(steps: seq<Step>, step: Step, c: Command, complete: bool)
    ensures EndedBy(steps + [step], c, complete) <==>
              EndedBy(steps, c, complete) || Concludes(Run(START, steps), step, c, complete)
  {
    EndedStays(steps, step, c, complete);
    if EndedBy(steps + [step], c, complete) {
      EndedBefore(steps, step, c, complete);
    }
  }

  /** Who is told when the wait ended with a Command Complete, with a Command Status. */
  ghost function Due(c: Command, kind: Kind, byComplete: bool, byStatus: bool): nat {
    if match kind
       case Completed => byComplete && c.OnComplete()
       case Answered => byStatus && c.OnStatus()
       case Ready => (byComplete || byStatus) && c.Futured()
    then 1 else 0
  }

  ghost predicate Kept(steps: seq<Step>, s: System, c: Command, kind: Kind) {
    Told(s.layer.log, c, kind) == Due(c, kind, EndedBy(steps, c, true), EndedBy(steps, c, false)) &&
    (EndedBy(steps, c, true) || EndedBy(steps, c, false) ==> Ends(s.layer.log, Entry(c)) >= 1) &&
    !(EndedBy(steps, c, true) && EndedBy(steps, c, false))
  }

  lemma {:induction false} HeldOnce(hs: seq<Handler>, i: nat, c: Command)
    requires i < |hs| && hs[i].entry == Some(c)
    ensures Held(hs, Buffer(c)) >= 1
  {
    HeldSplit(hs, i, hs[i], Buffer(c));
  }

  /** A command in the hands of an event has not ended. */
  lemma {:induction false} NotYet(s: System, i: nat, c: Command)
    requires Accounted(s, c, 0) && i < |s.handlers| && s.handlers[i].entry == Some(c)
    ensures Ends(s.layer.log, Entry(c)) == 0
  {
    HeldOnce(s.handlers, i, c);
  }

  lemma {:induction false} FinishTells(s: System, i: nat, c: Command, kind: Kind)
    requires i < |s.handlers| && s.handlers[i].credited
    ensures var h, n := s.handlers[i], Next(s, Finish(i)).layer.log;
            Told(n, c, kind) == Told(s.layer.log, c, kind) +
              (if h.entry == Some(c) && Due(c, kind, h.event.complete, !h.event.complete) == 1 then 1 else 0) &&
            Ends(n, Entry(c)) == Ends(s.layer.log, Entry(c)) + if h.entry == Some(c) then 1 else 0
  {
    var h := s.handlers[i];
    FinishLog(s, i);
    ConclusionTells(h.event, h.entry, c, kind);
    ToldMore(s.layer.log, Conclusion(h.event, h.entry), c, kind);
    ConclusionCounts(s.layer.log, h.event, h.entry, Entry(c));
  }

  /** The step that concludes a command. */
  lemma {:induction false} ConcludingKeeps(steps: seq<Step>, i: nat, s: System, c: Command, kind: Kind)
    requires s == Run(START, steps) && Kept(steps, s, c, kind) && Ends(s.layer.log, Entry(c)) == 0
    requires i < |s.handlers| && s.handlers[i].credited && s.handlers[i].entry == Some(c)
    ensures Kept(steps + [Finish(i)], Next(s, Finish(i)), c, kind)
  {
    EndedMore(steps, Finish(i), c, true);
    EndedMore(steps, Finish(i), c, false);
    FinishTells(s, i, c, kind);
  }

  lemma {:induction false} OtherConclusion(steps: seq<Step>, i: nat, s: System, c: Command, kind: Kind)
    requires s == Run(START, steps) && Kept(steps, s, c, kind)
    requires i < |s.handlers| && s.handlers[i].credited && s.handlers[i].entry != Some(c)
    ensures Kept(steps + [Finish(i)], Next(s, Finish(i)), c, kind)
  {
    EndedMore(steps, Finish(i), c, true);
    EndedMore(steps, Finish(i), c, false);
    FinishTells(s, i, c, kind);
  }

  /** Any other step tells nobody anything. */
  lemma {:induction false} QuietKeeps(steps: seq<Step>, step: Step, s: System, c: Command, kind: Kind)
    requires s == Run(START, steps) && Kept(steps, s, c, kind)
    requires step.Finish? ==> step.i >= |s.handlers| || !s.handlers[step.i].credited
    ensures Kept(steps + [step], Next(s, step), c, kind)
  {
    EndedMore(steps, step, c, true);
    EndedMore(steps, step, c, false);
    if step.Transmit? && step.c !in s.layer.issued && s.layer.credits > 0 && s.layer.phase != Up {
      var x := step.c;
      ToldWhen(s.layer.log, true, FreeCommand(x), c, kind);
      ToldWhen(s.layer.log + [FreeCommand(x)], true, FreeEntry(x), c, kind);
      assert s.layer.log + [FreeCommand(x)] + [FreeEntry(x)] == s.layer.log + [FreeCommand(x), FreeEntry(x)];
      DropEnds(s.layer.log, x, Entry(c));
    }
  }

  lemma {:induction false} StepKept(steps: seq<Step>, step: Step, s: System, c: Command, kind: Kind)
    requires s == Run(START, steps) && Kept(steps, s, c, kind) && Accounted(s, c, 0)
    ensures Kept(steps + [step], Next(s, step), c, kind)
  {
    if step.Finish? && step.i < |s.handlers| && s.handlers[step.i].credited {
      if s.handlers[step.i].entry == Some(c) {
        NotYet(s, step.i, c);
        ConcludingKeeps(steps, step.i, s, c, kind);
      } else {
        OtherConclusion(steps, step.i, s, c, kind);
      }
    } else {
      QuietKeeps(steps, step, s, c, kind);
    }
  }

  lemma {:induction false} KeptAtStart(c: Command, kind: Kind)
    ensures Kept([], Run(START, []), c, kind)
  {
    assert Run(START, []) == START && START.layer.log == [];
  }

  lemma {:induction false} AllKept(steps: seq<Step>, c: Command, kind: Kind)
    ensures Kept(steps, Run(START, steps), c, kind)
    decreases |steps|
  {
    if steps == [] {
      KeptAtStart(c, kind);
    } else {
      var before, step := steps[..|steps| - 1], steps[|steps| - 1];
      AllKept(before, c, kind);
      EveryRun(before, c, 0);
      RunMore(START, before, step);
      StepKept(before, step, Run(START, before), c, kind);
      assert before + [step] == steps;
    }
  }

  /** In every run a command whose wait was ended by a Command Complete has had its complete callback called
      once if it has one, and never otherwise; the same for Command Status and the status callback; and a
      future was made ready once if either ended it. No command is ended by both. */
  lemma {:induction false} ToldOnce(steps: seq<Step>, c: Command)
    ensures var log := Run(START, steps).layer.log;
            Told(log, c, Completed) == (if EndedBy(steps, c, true) && c.OnComplete() then 1 else 0) &&
            Told(log, c, Answered) == (if EndedBy(steps, c, false) && c.OnStatus() then 1 else 0) &&
            Told(log, c, Ready) == (if (EndedBy(steps, c, true) || EndedBy(steps, c, false)) && c.Futured() then 1 else 0)
    ensures EndedBy(steps, c, true) || EndedBy(steps, c, false) ==> Ends(Run(START, steps).layer.log, Entry(c)) == 1
    ensures !(EndedBy(steps, c, true) && EndedBy(steps, c, false))
  {
    AllKept(steps, c, Completed);
    AllKept(steps, c, Answered);
    AllKept(steps, c, Ready);
    EveryRun(steps, c, 0);
  }
}
