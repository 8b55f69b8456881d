/** HCI command flow control (hci_layer.cc): every mutex-protected section is one step. */
module HciLayer {
  import opened Options
  import opened Sequences

  /** transmit_command takes two optional callbacks, transmit_command_futured makes a future. */
  datatype Reply = Future | Callbacks(onComplete: bool, onStatus: bool)

  /** A command with its wait entry: one identity for buffer, entry and future. */
  datatype Command = Command(id: nat, opcode: nat, reply: Reply) {
    predicate Futured() { reply.Future? }
    predicate OnComplete() { reply.Callbacks? && reply.onComplete }
    predicate OnStatus() { reply.Callbacks? && reply.onStatus }
  }

  /** Command Complete or Command Status, in a packet of its own. */
  datatype Event = Event(complete: bool, packet: nat, credits: nat, opcode: nat)

  /** What the layer does with the resources it owns. */
  datatype Action =
    | FreePacket(packet: nat)
    | FreeCommand(command: Command)
    | FreeEntry(command: Command)
    | CallComplete(command: Command, packet: nat)
    | CallStatus(command: Command)
    | FutureReady(command: Command, packet: nat)

  datatype Phase = Starting | Up | Down

  datatype Layer = Layer(
    phase: Phase,
    credits: int,
    queue: seq<Command>,        // command_queue
    posted: seq<Command>,       // tasks in the message loop
    pending: seq<Command>,      // commands_pending_response
    timerLive: bool,
    timer: Option<Command>,     // the entry command_response_timer is armed for
    log: seq<Action>,
    issued: multiset<Command>,  // every command ever passed to transmit
    accepted: seq<Command>,     // those not dropped on the spot, in order
    sent: seq<Command>,         // those handed to the controller, in order
    lost: seq<Command>,         // tasks the message loop took down with it
    dropped: seq<Command>,      // commands enqueued while there was no message loop
    bound: int)                 // credits last announced, plus the tasks posted but not yet run then

  const INITIAL := Layer(Starting, 1, [], [], [], true, None, [], multiset{}, [], [], [], [], 1)

  // ---------- The sections of the source as functions ----------

  /** enqueue_command. */
  function EnqueueCommand(l: Layer, c: Command): Layer {
    var issued := l.issued + multiset{c};
    if l.credits > 0 then
      if l.phase != Up then
        l.(issued := issued, log := l.log + [FreeCommand(c), FreeEntry(c)], dropped := l.dropped + [c])
      else
        l.(issued := issued, posted := l.posted + [c], credits := l.credits - 1, accepted := l.accepted + [c])
    else
      l.(issued := issued, queue := l.queue + [c], accepted := l.accepted + [c])
  }

  function Front(s: seq<Command>): Option<Command> {
    if s == [] then None else Some(s[0])
  }

  /** event_command_ready, run by the message loop on its oldest task. */
  function EventCommandReady(l: Layer): Layer
    requires l.posted != []
  {
    UpdateTimer(l.(posted := l.posted[1..], pending := l.pending + [l.posted[0]], sent := l.sent + [l.posted[0]]))
  }

  /** update_command_response_timer. */
  function UpdateTimer(l: Layer): Layer {
    if l.timerLive then l.(timer := Front(l.pending)) else l
  }

  predicate Vendor(opcode: nat) { opcode / 0x400 % 0x40 == 0x3F }

  /** The entry that answers an opcode: the first exact match, or else the first vendor command
      when the opcode is a vendor one. */
  predicate Answers(s: seq<Command>, opcode: nat, i: nat) {
    i < |s| &&
    if s[i].opcode == opcode then forall j :: 0 <= j < i ==> s[j].opcode != opcode
    else (forall j :: 0 <= j < |s| ==> s[j].opcode != opcode) && Vendor(opcode) && Vendor(s[i].opcode) &&
         forall j :: 0 <= j < i ==> !Vendor(s[j].opcode)
  }

  function FirstFrom(s: seq<Command>, opcode: nat, exact: bool, i: nat): nat
    requires i <= |s|
    decreases |s| - i
  {
    if i == |s| || (if exact then s[i].opcode == opcode else Vendor(s[i].opcode) && Vendor(opcode)) then i
    else FirstFrom(s, opcode, exact, i + 1)
  }

  /** get_waiting_command: which entry it removes, if any. */
  function Waiting(s: seq<Command>, opcode: nat): Option<nat> {
    var i := FirstFrom(s, opcode, true, 0);
    var j := FirstFrom(s, opcode, false, 0);
    if i < |s| then Some(i) else if j < |s| then Some(j) else None
  }

  lemma {:induction false} FirstIsFirst(s: seq<Command>, opcode: nat, exact: bool, i: nat)
    requires i <= |s|
    ensures var k := FirstFrom(s, opcode, exact, i);
            i <= k <= |s| &&
            (forall j :: i <= j < k ==> if exact then s[j].opcode != opcode else !(Vendor(s[j].opcode) && Vendor(opcode))) &&
            (k < |s| ==> if exact then s[k].opcode == opcode else Vendor(s[k].opcode) && Vendor(opcode))
    decreases |s| - i
  {
    var here := i < |s| && if exact then s[i].opcode == opcode else Vendor(s[i].opcode) && Vendor(opcode);
    if i < |s| && !here {
      FirstIsFirst(s, opcode, exact, i + 1);
    }
  }

  lemma {:induction false} WaitingAnswers(s: seq<Command>, opcode: nat)
    ensures match Waiting(s, opcode)
            case Some(i) => Answers(s, opcode, i)
            case None => forall i :: !Answers(s, opcode, i)
  {
    FirstIsFirst(s, opcode, true, 0);
    FirstIsFirst(s, opcode, false, 0);
  }

  function TakeWaiting(l: Layer, opcode: nat): (r: (Layer, Option<Command>)) {
    match Waiting(l.pending, opcode)
    case Some(i) => if i < |l.pending| then (l.(pending := Without(l.pending, i)), Some(l.pending[i])) else (l, None)
    case None => (l, None)
  }

  /** As many as there are credits and commands for. */
  function Postable(free: int, waiting: nat): (n: nat)
    ensures n <= waiting
  {
    if free <= 0 then 0 else if free < waiting then free else waiting
  }

  /** process_command_credits: subtract the commands in flight, then post as many as remain. */
  function ProcessCredits(l: Layer, credits: nat): Layer {
    if l.phase != Up then l else
      var free := credits - |l.pending|;
      var n := Postable(free, |l.queue|);
      l.(credits := free - n, posted := l.posted + l.queue[..n], queue := l.queue[n..], bound := credits + |l.posted|)
  }

  function When(b: bool, a: Action): seq<Action> { if b then [a] else [] }

  /** The rest of filter_incoming_event: callbacks, futures and the label intercepted. */
  function Conclusion(e: Event, entry: Option<Command>): (a: seq<Action>) {
    match entry
    case None => [FreePacket(e.packet)]
    case Some(c) =>
      When(e.complete && c.OnComplete(), CallComplete(c, e.packet)) + When(!e.complete && c.OnStatus(), CallStatus(c)) +
      When(c.Futured(), FutureReady(c, e.packet)) +
      When(!c.Futured() && !(e.complete && c.OnComplete()), FreePacket(e.packet)) +
      When(e.complete || !c.OnStatus(), FreeCommand(c)) + [FreeEntry(c)]
  }

  function Conclude(l: Layer, e: Event, entry: Option<Command>): Layer {
    var l := if entry.Some? then UpdateTimer(l) else l;
    l.(log := l.log + Conclusion(e, entry))
  }

  /** hci_module_shut_down frees the timer first; later the message loop goes, with the tasks it still has. */
  function FreeTimer(l: Layer): Layer {
    l.(timerLive := false, timer := None)
  }

  function LoopGone(l: Layer): Layer {
    if l.phase != Up then l else l.(phase := Down, lost := l.posted, posted := [])
  }

  // ---------- The methods of the source ----------

  class Hci {
    var phase: Phase
    var commandCredits: int
    var commandQueue: seq<Command>
    var posted: seq<Command>
    var commandsPendingResponse: seq<Command>
    var timerLive: bool
    var timer: Option<Command>
    var log: seq<Action>

    var issued: multiset<Command>
    var accepted: seq<Command>
    var sent: seq<Command>
    var lost: seq<Command>
    var dropped: seq<Command>
    var bound: int

    function State(): Layer reads this {
      Layer(phase, commandCredits, commandQueue, posted, commandsPendingResponse, timerLive, timer, log,
            issued, accepted, sent, lost, dropped, bound)
    }

    /** hci_module_start_up allows one command. */
    constructor ()
      ensures State() == INITIAL
    {
      phase, commandCredits, commandQueue, posted := Starting, 1, [], [];
      commandsPendingResponse, timerLive, timer, log := [], true, None, [];
      issued, accepted, sent, lost, dropped, bound := multiset{}, [], [], [], [], 1;
    }

    /** The path of enqueue_command without a message loop: buffer and entry are freed. */
    method Drop(c: Command)
      modifies this`log, this`dropped
      ensures log == old(log) + [FreeCommand(c), FreeEntry(c)] && dropped == old(dropped) + [c]
    {
      log := log + [FreeCommand(c), FreeEntry(c)];
      dropped := dropped + [c];
    }

    /** The path that takes a credit, and the one that waits for it. */
    method PostOrQueue(c: Command)
      modifies this`posted, this`commandCredits, this`commandQueue, this`accepted
      ensures if old(commandCredits) > 0
              then posted == old(posted) + [c] && commandCredits == old(commandCredits) - 1 && commandQueue == old(commandQueue)
              else posted == old(posted) && commandCredits == old(commandCredits) && commandQueue == old(commandQueue) + [c]
      ensures accepted == old(accepted) + [c]
    {
      if commandCredits > 0 {
        posted := posted + [c];
        commandCredits := commandCredits - 1;
      } else {
        commandQueue := commandQueue + [c];
      }
      accepted := accepted + [c];
    }

    /** enqueue_command. */
    method Enqueue(c: Command)
      modifies this`issued, this`log, this`dropped, this`posted, this`commandCredits, this`commandQueue, this`accepted
      ensures State() == EnqueueCommand(old(State()), c)
    {
      issued := issued + multiset{c};
      if commandCredits > 0 && phase != Up {
        Drop(c);
      } else {
        PostOrQueue(c);
      }
    }

    /** update_command_response_timer. */
    method UpdateCommandResponseTimer()
      modifies this`timer
      ensures State() == UpdateTimer(old(State()))
    {
      if !timerLive {
        return;
      }
      if commandsPendingResponse == [] {
        timer := None;
      } else {
        timer := Some(commandsPendingResponse[0]);
      }
    }

    /** event_command_ready. */
    method CommandReady()
      requires posted != []
      modifies this
      ensures State() == EventCommandReady(old(State()))
    {
      var entry := posted[0];
      posted := posted[1..];
      commandsPendingResponse := commandsPendingResponse + [entry];
      sent := sent + [entry];
      UpdateCommandResponseTimer();
    }

    /** get_waiting_command: two passes over the list. */
    method GetWaitingCommand(opcode: nat) returns (entry: Option<Command>)
      modifies this`commandsPendingResponse
      ensures (State(), entry) == TakeWaiting(old(State()), opcode)
    {
      for i := 0 to |commandsPendingResponse|
        invariant State() == old(State())
        invariant FirstFrom(commandsPendingResponse, opcode, true, 0) == FirstFrom(commandsPendingResponse, opcode, true, i)
      {
        if commandsPendingResponse[i].opcode == opcode {
          entry := Some(commandsPendingResponse[i]);
          commandsPendingResponse := Without(commandsPendingResponse, i);
          return;
        }
      }
      for i := 0 to |commandsPendingResponse|
        invariant State() == old(State())
        invariant FirstFrom(commandsPendingResponse, opcode, true, 0) == |commandsPendingResponse|
        invariant FirstFrom(commandsPendingResponse, opcode, false, 0) == FirstFrom(commandsPendingResponse, opcode, false, i)
      {
        if Vendor(commandsPendingResponse[i].opcode) && Vendor(opcode) {
          entry := Some(commandsPendingResponse[i]);
          commandsPendingResponse := Without(commandsPendingResponse, i);
          return;
        }
      }
      entry := None;
    }

    /** The loop of process_command_credits. */
    method PostWhileCredits()
      modifies this`commandCredits, this`posted, this`commandQueue
      ensures var n := Postable(old(commandCredits), |old(commandQueue)|);
              commandCredits == old(commandCredits) - n && posted == old(posted) + old(commandQueue)[..n] &&
              commandQueue == old(commandQueue)[n..]
    {
      ghost var free, n, queue, tasks := commandCredits, 0, commandQueue, posted;
      while commandCredits > 0 && |commandQueue| > 0
        invariant n <= |queue| && commandCredits == free - n && (n == 0 || n <= free)
        invariant posted == tasks + queue[..n] && commandQueue == queue[n..]
        decreases |commandQueue|
      {
        posted := posted + [commandQueue[0]];
        commandQueue := commandQueue[1..];
        commandCredits := commandCredits - 1;
        n := n + 1;
      }
      assert n == Postable(free, |queue|);
    }

    /** process_command_credits. */
    method ProcessCommandCredits(credits: nat)
      modifies this`bound, this`commandCredits, this`posted, this`commandQueue
      ensures State() == ProcessCredits(old(State()), credits)
    {
      if phase != Up {
        return;
      }
      bound := credits + |posted|;
      commandCredits := credits - |commandsPendingResponse|;
      PostWhileCredits();
    }

    /** The callbacks and the label intercepted of filter_incoming_event. */
    method Intercepted(e: Event, entry: Option<Command>)
      modifies this`timer, this`log
      ensures State() == Conclude(old(State()), e, entry)
    {
      var statusGivenToFuture := false;
      var done: seq<Action> := [];
      if entry.Some? {
        var c := entry.value;
        UpdateCommandResponseTimer();
        if e.complete {
          if c.OnComplete() {
            done := done + [CallComplete(c, e.packet)];
          } else if c.Futured() {
            done := done + [FutureReady(c, e.packet)];
          }
        } else {
          if c.OnStatus() {
            done := done + [CallStatus(c)];
          } else if c.Futured() {
            done := done + [FutureReady(c, e.packet)];
            statusGivenToFuture := true;
          }
        }
        if (!e.complete && !statusGivenToFuture) || (!c.OnComplete() && !c.Futured()) {
          done := done + [FreePacket(e.packet)];
        }
        if e.complete || !c.OnStatus() {
          done := done + [FreeCommand(c)];
        }
        done := done + [FreeEntry(c)];
      } else {
        done := done + [FreePacket(e.packet)];
      }
      assert done == Conclusion(e, entry);
      log := log + done;
    }

    /** filter_incoming_event for the two command events, when nothing comes between its sections. */
    method FilterIncomingEvent(e: Event)
      modifies this
      ensures var (l, entry) := TakeWaiting(old(State()), e.opcode);
              State() == Conclude(ProcessCredits(l, e.credits), e, entry)
    {
      var entry := GetWaitingCommand(e.opcode);
      ProcessCommandCredits(e.credits);
      Intercepted(e, entry);
    }
  }
}
