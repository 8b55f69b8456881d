/** What becomes of commands, of the timer and of the message loop in the HCI layer's runs. */
module HciFates {
  import opened HciLayer
  import opened HciRuns
  import opened HciAnswers
  import opened Options
  import opened Sequences

  // ---------- The method and the steps ----------

  /** filter_incoming_event without an interruption is its three steps, one after the other. */
  lemma {:induction false} FilterIsThreeSteps(s: System, e: Event)
    requires e.packet !in s.arrived
    ensures var n := |s.handlers|;
            var after := Next(Next(Next(s, Receive(e)), Credit(n)), Finish(n));
            var (l, entry) := TakeWaiting(s.layer, e.opcode);
            after.layer == Conclude(ProcessCredits(l, e.credits), e, entry) && after.handlers == s.handlers
  {
    var n := |s.handlers|;
    var (l, entry) := TakeWaiting(s.layer, e.opcode);
    var s1 := Next(s, Receive(e));
    assert s1.layer == l && s1.handlers == s.handlers + [Handler(e, entry, false)];
    var s2 := Next(s1, Credit(n));
    assert s2.layer == ProcessCredits(l, e.credits) && s2.handlers == s.handlers + [Handler(e, entry, true)];
    assert Without(s2.handlers, n) == s.handlers;
  }

  // ---------- From the message loop to the controller ----------

  function Tasks(n: nat): (steps: seq<Step>)
    ensures |steps| == n
  {
    seq(n, i => RunTask)
  }

  /** The first n tasks of the one layer have been sent in the other, and nothing else but the timer differs. */
  ghost predicate SentOn(l: Layer, n: nat, l': Layer) {
    n <= |l.posted| && l'.posted == l.posted[n..] && l'.sent == l.sent + l.posted[..n] &&
    l'.pending == l.pending + l.posted[..n] &&
    l' == l.(posted := l'.posted, sent := l'.sent, pending := l'.pending, timer := l'.timer)
  }

  lemma {:induction false} OneTask(l: Layer, n: nat, s: System)
    requires l.phase == Up && n < |l.posted| && SentOn(l, n, s.layer)
    ensures SentOn(l, n + 1, Next(s, RunTask).layer)
  {
    assert l.posted[n..][1..] == l.posted[n + 1..];
    assert l.posted[..n + 1] == l.posted[..n] + [l.posted[n]];
  }

  /** The message loop sends its tasks in order: each becomes the youngest pending command, and nothing
      else but the timer changes. */
  lemma {:induction false} TasksAreSent(s: System, n: nat)
    requires s.layer.phase == Up && n <= |s.layer.posted|
    ensures SentOn(s.layer, n, Run(s, Tasks(n)).layer)
  {
    if n == 0 {
      assert s.layer.pending + [] == s.layer.pending && s.layer.sent + [] == s.layer.sent;
    } else {
      TasksAreSent(s, n - 1);
      assert Tasks(n) == Tasks(n - 1) + [RunTask];
      RunMore(s, Tasks(n - 1), RunTask);
      OneTask(s.layer, n - 1, Run(s, Tasks(n - 1)));
    }
  }

  // ---------- The pending list keeps the order of sending ----------

  /** The first sequence is the second one with elements left out. */
  ghost predicate Part(s: seq<Command>, t: seq<Command>)
    decreases |t|
  {
    s == [] ||
    (t != [] && (Part(s, t[..|t| - 1]) || (s[|s| - 1] == t[|t| - 1] && Part(s[..|s| - 1], t[..|t| - 1]))))
  }

  lemma {:induction false} PartMore(s: seq<Command>, t: seq<Command>, c: Command)
    requires Part(s, t)
    ensures Part(s + [c], t + [c])
  {
    assert (s + [c])[..|s|] == s && (t + [c])[..|t|] == t;
  }

  lemma {:induction false} PartWithout(s: seq<Command>, t: seq<Command>, i: nat)
    requires Part(s, t) && i < |s|
    ensures Part(Without(s, i), t)
    decreases |t|
  {
    var n, rest := |s| - 1, t[..|t| - 1];
    if Part(s, rest) {
      PartWithout(s, rest, i);
    } else if i < n {
      PartWithout(s[..n], rest, i);
      assert Without(s, i)[..n - 1] == Without(s[..n], i);
    } else {
      assert Without(s, i) == s[..n];
      PartLonger(s[..n], rest, t);
    }
  }

  lemma {:induction false} PartLonger(s: seq<Command>, t: seq<Command>, more: seq<Command>)
    requires Part(s, t) && more != [] && more[..|more| - 1] == t
    ensures Part(s, more)
  {}

  lemma {:induction false} PartKept(s: System, step: Step)
    requires Part(s.layer.pending, s.layer.sent)
    ensures Part(Next(s, step).layer.pending, Next(s, step).layer.sent)
  {
    match step
    case RunTask =>
      if s.layer.phase == Up && s.layer.posted != [] {
        PartMore(s.layer.pending, s.layer.sent, s.layer.posted[0]);
      }
    case Receive(e) =>
      var w := Waiting(s.layer.pending, e.opcode);
      if w.Some? && w.value < |s.layer.pending| {
        PartWithout(s.layer.pending, s.layer.sent, w.value);
      }
    case _ =>
  }

  /** In every run the pending commands stand in the order in which they were sent; so the one the timer
      watches, the first of them, has waited longest. */
  lemma {:induction false} PendingInOrder(steps: seq<Step>)
    ensures Part(Run(START, steps).layer.pending, Run(START, steps).layer.sent)
    decreases |steps|
  {
    if steps != [] {
      PendingInOrder(steps[..|steps| - 1]);
      PartKept(Run(START, steps[..|steps| - 1]), steps[|steps| - 1]);
    }
  }

  // ---------- Shutting down ----------

  ghost predicate TimerGone(l: Layer, gone: bool) {
    l.timerLive == !gone && (gone ==> l.timer == None)
  }

  lemma {:induction false} TimerStep(s: System, step: Step, gone: bool)
    requires TimerGone(s.layer, gone)
    ensures TimerGone(Next(s, step).layer, gone || step == TimerFreed)
  {}

  /** The timer is there until it is freed, and it is never armed again afterwards. */
  lemma {:induction false} TimerUntilFreed(steps: seq<Step>)
    ensures var l := Run(START, steps).layer;
            (l.timerLive <==> TimerFreed !in steps) && (TimerFreed in steps ==> l.timer == None)
    decreases |steps|
  {
    if steps == [] {
      assert Run(START, []) == START;
    } else {
      var before, step := steps[..|steps| - 1], steps[|steps| - 1];
      TimerUntilFreed(before);
      TimerStep(Run(START, before), step, TimerFreed in before);
      RunMore(START, before, step);
      assert steps == before + [step];
    }
  }

  ghost predicate Silent(l: Layer, sent: seq<Command>, lost: seq<Command>) {
    l.phase == Down && l.posted == [] && l.sent == sent && l.lost == lost
  }

  lemma {:induction false} SilentStep(s: System, step: Step, sent: seq<Command>, lost: seq<Command>)
    requires Silent(s.layer, sent, lost)
    ensures Silent(Next(s, step).layer, sent, lost)
  {}

  lemma {:induction false} DownIsSilent(s: System, steps: seq<Step>, sent: seq<Command>, lost: seq<Command>)
    requires Silent(s.layer, sent, lost)
    ensures Silent(Run(s, steps).layer, sent, lost)
    decreases |steps|
  {
    if steps == [] {
      assert Run(s, []) == s;
    } else {
      var before, step := steps[..|steps| - 1], steps[|steps| - 1];
      DownIsSilent(s, before, sent, lost);
      SilentStep(Run(s, before), step, sent, lost);
      RunMore(s, before, step);
      assert steps == before + [step];
    }
  }

  /** When the message loop goes, its tasks are lost; whatever happens afterwards, nothing more is sent. */
  lemma {:induction false} SilentAfterLoopDown(s: System, steps: seq<Step>)
    requires s.layer.phase == Up
    ensures var l := Run(Next(s, LoopDown), steps).layer;
            l.phase == Down && l.posted == [] && l.lost == s.layer.posted && l.sent == s.layer.sent
  {
    DownIsSilent(Next(s, LoopDown), steps, s.layer.sent, s.layer.posted);
  }
}
