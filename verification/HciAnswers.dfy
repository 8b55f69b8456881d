/** Which event a callback or a future is given, in every interleaving of the HCI layer's sections. */
module HciAnswers {
  import opened HciLayer
  import opened HciRuns
  import opened Options

  /** In this state the event's opcode answers the command, and the packet is new. */
  ghost predicate Takes(s: System, e: Event, c: Command) {
    e.packet !in s.arrived && exists i: nat :: Answers(s.layer.pending, e.opcode, i) && s.layer.pending[i] == c
  }

  /** At some point of the run the event was received and its opcode answered the command. */
  ghost predicate AnsweredBy(steps: seq<Step>, e: Event, c: Command) {
    exists k :: 0 <= k < |steps| && steps[k] == Receive(e) && Takes(Run(START, steps[..k]), e, c)
  }

  /** What is handed over belongs to an event that answered the command, and of the kind asked for. */
  ghost predicate Matched(steps: seq<Step>, a: Action) {
    match a
    case CallComplete(c, p) => c.OnComplete() && exists e :: AnsweredBy(steps, e, c) && e.packet == p && e.complete
    case CallStatus(c) => c.OnStatus() && exists e :: AnsweredBy(steps, e, c) && !e.complete
    case FutureReady(c, p) => c.Futured() && exists e :: AnsweredBy(steps, e, c) && e.packet == p
    case _ => true
  }

  ghost predicate HandlersMatch(steps: seq<Step>, hs: seq<Handler>) {
    forall h :: h in hs && h.entry.Some? ==> AnsweredBy(steps, h.event, h.entry.value)
  }

  ghost predicate LogMatches(steps: seq<Step>, log: seq<Action>) {
    forall a :: a in log ==> Matched(steps, a)
  }

  lemma {:induction false} StillAnswered(steps: seq<Step>, step: Step, e: Event, c: Command)
    requires AnsweredBy(steps, e, c)
    ensures AnsweredBy(steps + [step], e, c)
  {
    var more := steps + [step];
    var k :| 0 <= k < |steps| && steps[k] == Receive(e) && Takes(Run(START, steps[..k]), e, c);
    assert more[..k] == steps[..k] && more[k] == steps[k];
  }

  lemma {:induction false} StillMatched(steps: seq<Step>, step: Step, a: Action)
    requires Matched(steps, a)
    ensures Matched(steps + [step], a)
  {
    forall e, c | AnsweredBy(steps, e, c) ensures AnsweredBy(steps + [step], e, c) {
      StillAnswered(steps, step, e, c);
    }
  }

  lemma {:induction false} Later(steps: seq<Step>, step: Step, s: System)
    requires HandlersMatch(steps, s.handlers) && LogMatches(steps, s.layer.log)
    ensures HandlersMatch(steps + [step], s.handlers) && LogMatches(steps + [step], s.layer.log)
  {
    forall h | h in s.handlers && h.entry.Some? ensures AnsweredBy(steps + [step], h.event, h.entry.value) {
      StillAnswered(steps, step, h.event, h.entry.value);
    }
    forall a | a in s.layer.log ensures Matched(steps + [step], a) {
      StillMatched(steps, step, a);
    }
  }

  /** Opcodes of the vendor group are those from 0xFC00 on. */
  lemma {:induction false} VendorIs(opcode: nat)
    requires opcode < 0x1_0000
    ensures Vendor(opcode) <==> opcode >= 0xFC00
  {}

  /** Receiving takes out of the list the command that the opcode answers, and nothing exactly when it
      answers none. */
  lemma {:induction false} ReceiveTakes(l: Layer, opcode: nat)
    ensures var (n, entry) := TakeWaiting(l, opcode);
            (entry.None? <==> forall i: nat :: !Answers(l.pending, opcode, i)) && (entry.None? ==> n == l) &&
            (entry.Some? ==> exists i: nat :: Answers(l.pending, opcode, i) && entry == Some(l.pending[i]) &&
                                              n == l.(pending := l.pending[..i] + l.pending[i + 1..]))
  {
    WaitingAnswers(l.pending, opcode);
    var w := Waiting(l.pending, opcode);
    assert w.Some? ==> Answers(l.pending, opcode, w.value);
  }

  /** So the entry of an event is a command that it answered. */
  lemma {:induction false} ReceiveMatches(steps: seq<Step>, e: Event)
    requires e.packet !in Run(START, steps).arrived
    ensures var entry := TakeWaiting(Run(START, steps).layer, e.opcode).1;
            entry.Some? ==> AnsweredBy(steps + [Receive(e)], e, entry.value)
  {
    var s, more := Run(START, steps), steps + [Receive(e)];
    ReceiveTakes(s.layer, e.opcode);
    assert more[..|steps|] == steps && more[|steps|] == Receive(e);
  }

  lemma {:induction false} ConclusionMatches(steps: seq<Step>, e: Event, entry: Option<Command>)
    requires entry.Some? ==> AnsweredBy(steps, e, entry.value)
    ensures LogMatches(steps, Conclusion(e, entry))
  {}

  lemma {:induction false} FinishMatches(steps: seq<Step>, s: System, i: nat)
    requires i < |s.handlers| && s.handlers[i].credited && HandlersMatch(steps, s.handlers) && LogMatches(steps, s.layer.log)
    ensures HandlersMatch(steps, Next(s, Finish(i)).handlers) && LogMatches(steps, Next(s, Finish(i)).layer.log)
  {
    ConclusionMatches(steps, s.handlers[i].event, s.handlers[i].entry);
  }

  lemma {:induction false} ReceivingMatches(steps: seq<Step>, e: Event, s: System)
    requires s == Run(START, steps) && e.packet !in s.arrived
    requires HandlersMatch(steps + [Receive(e)], s.handlers) && LogMatches(steps + [Receive(e)], s.layer.log)
    ensures HandlersMatch(steps + [Receive(e)], Next(s, Receive(e)).handlers)
    ensures LogMatches(steps + [Receive(e)], Next(s, Receive(e)).layer.log)
  {
    ReceiveMatches(steps, e);
  }

  lemma {:induction false} CreditingMatches(steps: seq<Step>, i: nat, s: System)
    requires HandlersMatch(steps, s.handlers) && LogMatches(steps, s.layer.log)
    ensures HandlersMatch(steps, Next(s, Credit(i)).handlers) && LogMatches(steps, Next(s, Credit(i)).layer.log)
  {
    assert i < |s.handlers| ==> s.handlers[i] in s.handlers;
  }

  /** One step, seen from the run that has grown by it. */
  lemma {:induction false} StepMatches(steps: seq<Step>, step: Step, s: System)
    requires s == Run(START, steps)
    requires HandlersMatch(steps + [step], s.handlers) && LogMatches(steps + [step], s.layer.log)
    ensures HandlersMatch(steps + [step], Next(s, step).handlers) && LogMatches(steps + [step], Next(s, step).layer.log)
  {
    match step
    case Receive(e) => if e.packet !in s.arrived { ReceivingMatches(steps, e, s); }
    case Finish(i) => if i < |s.handlers| && s.handlers[i].credited { FinishMatches(steps + [step], s, i); }
    case Credit(i) => CreditingMatches(steps + [step], i, s);
    case _ =>
  }

  lemma {:induction false} AllMatch(steps: seq<Step>)
    ensures HandlersMatch(steps, Run(START, steps).handlers) && LogMatches(steps, Run(START, steps).layer.log)
    decreases |steps|
  {
    if steps != [] {
      var n := |steps| - 1;
      AllMatch(steps[..n]);
      Later(steps[..n], steps[n], Run(START, steps[..n]));
      assert steps[..n] + [steps[n]] == steps;
      StepMatches(steps[..n], steps[n], Run(START, steps[..n]));
    }
  }

  /** In every run: a complete callback and a future get the packet of an event that was received while the
      command was the one its opcode answers, and a status callback is called for such an event; a complete
      callback only for Command Complete and a status callback only for Command Status. */
  lemma {:induction false} RightAnswers(steps: seq<Step>, c: Command, p: nat)
    ensures var log := Run(START, steps).layer.log;
            (CallComplete(c, p) in log ==> c.OnComplete() && exists e :: AnsweredBy(steps, e, c) && e.packet == p && e.complete) &&
            (FutureReady(c, p) in log ==> c.Futured() && exists e :: AnsweredBy(steps, e, c) && e.packet == p) &&
            (CallStatus(c) in log ==> c.OnStatus() && exists e :: AnsweredBy(steps, e, c) && !e.complete)
  {
    AllMatch(steps);
    var log := Run(START, steps).layer.log;
    assert CallComplete(c, p) in log ==> Matched(steps, CallComplete(c, p));
    assert FutureReady(c, p) in log ==> Matched(steps, FutureReady(c, p));
    assert CallStatus(c) in log ==> Matched(steps, CallStatus(c));
  }
}
