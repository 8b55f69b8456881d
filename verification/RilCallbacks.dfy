/** Response callbacks of one SIM slot (ril_service.cpp): a failed call drops the read lock, takes the
    write lock and resets the callbacks, guarded by a counter of their updates. */
module RilCallbacks {
  import opened Options
  import Arithmetic

  const INT32_MIN := -0x8000_0000
  const INT32_MAX := 0x7FFF_FFFF
  const WRAP := 0x1_0000_0000

  /** The radio service and the OEM hook service share the slot's lock, not the counter. */
  datatype Service = Radio | OemHook

  /** Interface objects by identity. The OEM hook has no 1.1 interfaces. */
  datatype Callbacks = Callbacks(response: Option<nat>, indication: Option<nat>,
                                 response11: Option<nat>, indication11: Option<nat>)

  const NULL := Callbacks(None, None, None, None)

  datatype Side = Side(callbacks: Callbacks, counter: int)

  /** What a failed thread remembers between dropping the read lock and taking the write lock. */
  datatype Note = Note(service: Service, counter: int)

  datatype Slot = Slot(
    radio: Side,
    oem: Side,
    reading: set<nat>,         // threads holding the read lock
    noted: map<nat, Note>,     // threads waiting for the write lock in checkReturnStatus
    returning: set<nat>)       // threads about to take the read lock again

  const INITIAL := Slot(Side(NULL, 0), Side(NULL, 0), {}, map[], {})

  function Of(s: Slot, service: Service): Side {
    if service == Radio then s.radio else s.oem
  }

  function With(s: Slot, service: Service, side: Side): Slot {
    if service == Radio then s.(radio := side) else s.(oem := side)
  }

  /** Incrementing an int32_t. */
  function Bump(c: int): int {
    if c == INT32_MAX then INT32_MIN else c + 1
  }

  // ---------- The sections of the source between lock operations ----------

  predicate Free(s: Slot, t: nat) {
    t !in s.reading && t !in s.noted && t !in s.returning
  }

  function ReadLock(s: Slot, t: nat): Slot {
    s.(reading := s.reading + {t}, returning := s.returning - {t})
  }

  function ReadUnlock(s: Slot, t: nat): Slot {
    s.(reading := s.reading - {t})
  }

  /** checkReturnStatus after a failed call: note the counter, drop the read lock. */
  function NoteFailure(s: Slot, t: nat, service: Service): Slot {
    s.(reading := s.reading - {t}, noted := s.noted[t := Note(service, Of(s, service).counter)])
  }

  /** Under the write lock: reset the callbacks unless they were updated meanwhile. */
  function ResetIfSame(s: Slot, t: nat): Slot
    requires t in s.noted
  {
    var note := s.noted[t];
    var side := Of(s, note.service);
    var r := s.(noted := s.noted - {t}, returning := s.returning + {t});
    if note.counter == side.counter then With(r, note.service, Side(NULL, Bump(side.counter))) else r
  }

  /** What setResponseFunctions makes of its arguments and the casts to the 1.1 interfaces: one of these
      alone is no use. */
  function Installed(service: Service, c: Callbacks): Callbacks {
    if service == OemHook || c.response11.None? || c.indication11.None?
    then c.(response11 := None, indication11 := None)
    else c
  }

  /** setResponseFunctions, under the write lock. */
  function SetFunctions(s: Slot, service: Service, c: Callbacks): Slot {
    With(s, service, Side(Installed(service, c), Bump(Of(s, service).counter)))
  }

  /** The write lock is free. */
  predicate Writable(s: Slot) { s.reading == {} }

  // ---------- The methods of the source ----------

  class RadioSlot {
    var radio: Callbacks
    var oem: Callbacks
    var counterRadio: int
    var counterOemHook: int
    var reading: set<nat>
    var noted: map<nat, Note>
    var returning: set<nat>

    function State(): Slot reads this {
      Slot(Side(radio, counterRadio), Side(oem, counterOemHook), reading, noted, returning)
    }

    constructor ()
      ensures State() == INITIAL
    {
      radio, oem, counterRadio, counterOemHook := NULL, NULL, 0, 0;
      reading, noted, returning := {}, map[], {};
    }

    method Rdlock(t: nat)
      modifies this`reading, this`returning
      ensures State() == ReadLock(old(State()), t)
    {
      reading := reading + {t};
      returning := returning - {t};
    }

    method Unlock(t: nat)
      modifies this`reading
      ensures State() == ReadUnlock(old(State()), t)
    {
      reading := reading - {t};
    }

    /** checkReturnStatus up to the unlock. */
    method NoteCounter(t: nat, isRadioService: bool)
      requires t in reading
      modifies this`reading, this`noted
      ensures State() == NoteFailure(old(State()), t, if isRadioService then Radio else OemHook)
    {
      var counter := if isRadioService then counterRadio else counterOemHook;
      noted := noted[t := Note(if isRadioService then Radio else OemHook, counter)];
      Unlock(t);
    }

    /** checkReturnStatus between the write lock and its release. */
    method ResetUnlessUpdated(t: nat)
      requires t in noted && reading == {}
      modifies this
      ensures State() == ResetIfSame(old(State()), t)
    {
      var isRadioService, counter := noted[t].service == Radio, noted[t].counter;
      noted := noted - {t};
      returning := returning + {t};
      if counter == if isRadioService then counterRadio else counterOemHook {
        if isRadioService {
          radio := NULL;
          counterRadio := Bump(counterRadio);
        } else {
          oem := NULL;
          counterOemHook := Bump(counterOemHook);
        }
      }
    }

    /** checkReturnStatus of a failed call when no other thread comes between its sections. */
    method CheckReturnStatus(t: nat, isRadioService: bool)
      requires reading == {t} && t !in noted && t !in returning
      modifies this
      ensures var service := if isRadioService then Radio else OemHook;
              State() == With(old(State()), service, Side(NULL, Bump(Of(old(State()), service).counter)))
    {
      NoteCounter(t, isRadioService);
      ResetUnlessUpdated(t);
      Rdlock(t);
      assert noted == old(noted) && returning == old(returning);
    }

    /** RadioImpl::setResponseFunctions; cast11 are the casts to the 1.1 interfaces. */
    method SetResponseFunctions(response: Option<nat>, indication: Option<nat>,
                                cast11Response: Option<nat>, cast11Indication: Option<nat>)
      requires reading == {}
      modifies this`radio, this`counterRadio
      ensures State() == SetFunctions(old(State()), Radio, Callbacks(response, indication, cast11Response, cast11Indication))
      ensures radio.response == response && radio.indication == indication
      ensures if cast11Response.Some? && cast11Indication.Some?
              then radio.response11 == cast11Response && radio.indication11 == cast11Indication
              else radio.response11 == None && radio.indication11 == None
    {
      radio := Callbacks(response, indication, cast11Response, cast11Indication);
      if radio.response11.None? || radio.indication11.None? {
        radio := radio.(response11 := None, indication11 := None);
      }
      counterRadio := Bump(counterRadio);
    }

    /** OemHookImpl::setResponseFunctions. */
    method SetOemHookFunctions(response: Option<nat>, indication: Option<nat>)
      requires reading == {}
      modifies this`oem, this`counterOemHook
      ensures State() == SetFunctions(old(State()), OemHook, Callbacks(response, indication, None, None))
      ensures oem == Callbacks(response, indication, None, None)
    {
      oem := Callbacks(response, indication, None, None);
      counterOemHook := Bump(counterOemHook);
    }
  }

  // ---------- Runs ----------

  datatype Step =
    | Enter(t: nat)
    | Leave(t: nat)
    | Fail(t: nat, service: Service)
    | Write(t: nat)
    | Set(service: Service, c: Callbacks)

  /** A reset: the update it noted when the call failed, and the update it found under the write lock. */
  datatype Reset = Reset(service: Service, failed: nat, found: nat)

  /** A slot with its past, in unbounded numbers: the callbacks after each update of each service, the
      update each waiting thread failed on, and the resets so far. */
  datatype Run = Run(s: Slot, radio: seq<Callbacks>, oem: seq<Callbacks>, failedOn: map<nat, nat>, resets: seq<Reset>)

  const START := Run(INITIAL, [NULL], [NULL], map[], [])

  function Past(r: Run, service: Service): seq<Callbacks> {
    if service == Radio then r.radio else r.oem
  }

  /** How many updates there were. */
  function Updates(r: Run, service: Service): nat {
    if Past(r, service) == [] then 0 else |Past(r, service)| - 1
  }

  /** The update a waiting thread's call failed on. */
  function FailedOn(r: Run, t: nat): nat {
    if t in r.failedOn then r.failedOn[t] else 0
  }

  function Grown(r: Run, service: Service, c: Callbacks): Run {
    if service == Radio then r.(radio := r.radio + [c]) else r.(oem := r.oem + [c])
  }

  predicate Enabled(r: Run, step: Step) {
    match step
    case Enter(t) => t !in r.s.reading && t !in r.s.noted
    case Leave(t) => t in r.s.reading
    case Fail(t, _) => t in r.s.reading
    case Write(t) => t in r.s.noted && Writable(r.s)
    case Set(_, _) => Writable(r.s)
  }

  function Next(r: Run, step: Step): Run
    requires Enabled(r, step)
  {
    match step
    case Enter(t) => r.(s := ReadLock(r.s, t))
    case Leave(t) => r.(s := ReadUnlock(r.s, t))
    case Fail(t, service) => r.(s := NoteFailure(r.s, t, service), failedOn := r.failedOn[t := Updates(r, service)])
    case Write(t) =>
      var note := r.s.noted[t];
      var n := r.(s := ResetIfSame(r.s, t), failedOn := r.failedOn - {t});
      if note.counter == Of(r.s, note.service).counter
      then Grown(n, note.service, NULL).(resets := r.resets + [Reset(note.service, FailedOn(r, t), Updates(r, note.service))])
      else n
    case Set(service, c) => Grown(r.(s := SetFunctions(r.s, service, c)), service, Installed(service, c))
  }

  predicate Allowed(r: Run, steps: seq<Step>)
    decreases |steps|
  {
    steps == [] || (Enabled(r, steps[0]) && Allowed(Next(r, steps[0]), steps[1..]))
  }

  function After(r: Run, steps: seq<Step>): Run
    requires Allowed(r, steps)
    decreases |steps|
  {
    if steps == [] then r else After(Next(r, steps[0]), steps[1..])
  }

  /** The value an int32_t counter shows after n increments from zero. */
  function Shown(n: nat): int {
    if n == 0 then 0 else Bump(Shown(n - 1))
  }

  lemma {:induction false} ShownIs(n: nat) returns (q: nat)
    ensures Shown(n) == n - WRAP * q && INT32_MIN <= Shown(n) <= INT32_MAX
  {
    if n == 0 {
      q := 0;
    } else {
      q := ShownIs(n - 1);
      if Shown(n - 1) == INT32_MAX {
        q := q + 1;
      }
    }
  }

  /** Whole turns of the counter. */
  predicate Round(n: int) { n % WRAP == 0 }

  lemma {:induction false} RoundIff(d: int, r: int, e: int)
    requires d == e + WRAP * r && -WRAP < e < WRAP
    ensures Round(d) <==> e == 0
  {
    Arithmetic.MultipleMod(e, WRAP, r);
  }

  lemma {:induction false} ShownEqual(m: nat, n: nat)
    requires m <= n
    ensures Shown(m) == Shown(n) <==> Round(n - m)
  {
    var p := ShownIs(m);
    var q := ShownIs(n);
    RoundIff(n - m, (q as int) - p, Shown(n) - Shown(m));
  }

  predicate BothOrNone(c: Callbacks) {
    c.response11.Some? <==> c.indication11.Some?
  }

  /** The counter shows the number of updates, and the callbacks are those of the last one. */
  ghost predicate Books(side: Side, past: seq<Callbacks>) {
    past != [] && side == Side(past[|past| - 1], Shown(|past| - 1)) && forall i :: 0 <= i < |past| ==> BothOrNone(past[i])
  }

  ghost predicate Waits(r: Run) {
    forall t :: t in r.s.noted ==>
      FailedOn(r, t) <= Updates(r, r.s.noted[t].service) && r.s.noted[t].counter == Shown(FailedOn(r, t))
  }

  /** Every reset found the counter it had noted, and put null in place of the callbacks it found. */
  ghost predicate Resets(r: Run) {
    (forall i :: 0 <= i < |r.resets| ==>
       var e := r.resets[i];
       e.failed <= e.found < Updates(r, e.service) && Round(e.found - e.failed) && Past(r, e.service)[e.found + 1] == NULL) &&
    (forall i, j :: 0 <= i < j < |r.resets| && r.resets[i].service == r.resets[j].service ==> r.resets[i].found < r.resets[j].found)
  }

  ghost predicate Inv(r: Run) {
    Books(r.s.radio, r.radio) && Books(r.s.oem, r.oem) && Waits(r) && Resets(r)
  }

  lemma {:induction false} BooksGrow(side: Side, past: seq<Callbacks>, c: Callbacks)
    requires Books(side, past) && BothOrNone(c)
    ensures Books(Side(c, Bump(side.counter)), past + [c])
  {}

  /** In every state: installing callbacks keeps the ones given, the 1.1 interfaces if there are both and the
      service has them, leaves the other service alone, and counts one update; the counter is an int32_t. */
  lemma {:induction false} SetMeans(r: Run, service: Service, c: Callbacks)
    requires Inv(r) && Writable(r.s)
    ensures var n, now := Next(r, Set(service, c)), Of(Next(r, Set(service, c)).s, service).callbacks;
            now.response == c.response && now.indication == c.indication &&
            (if service == Radio && c.response11.Some? && c.indication11.Some?
             then now.response11 == c.response11 && now.indication11 == c.indication11
             else now.response11 == None && now.indication11 == None) &&
            Past(n, service) == Past(r, service) + [now] && (forall other :: other != service ==> Of(n.s, other) == Of(r.s, other)) &&
            (Of(n.s, service).counter - Of(r.s, service).counter) % 0x1_0000_0000 == 1 &&
            -0x8000_0000 <= Of(n.s, service).counter <= 0x7FFF_FFFF
  {
    var k := Updates(r, service);
    var q := ShownIs(k);
    var q' := ShownIs(k + 1);
    Arithmetic.MultipleMod(1, WRAP, (q as int) - q');
  }

  /** Another update of a service, that is not a reset. */
  lemma {:induction false} ResetsStay(r: Run, n: Run)
    requires Resets(r) && n.resets == r.resets && r.radio <= n.radio && r.oem <= n.oem
    ensures Resets(n)
  {}

  lemma {:induction false} ResetsGrow(r: Run, n: Run, e: Reset)
    requires Resets(r) && n.resets == r.resets + [e] && r.radio <= n.radio && r.oem <= n.oem
    requires e.failed <= e.found == Updates(r, e.service) && Round(e.found - e.failed)
    requires Past(r, e.service) != [] && Past(n, e.service) == Past(r, e.service) + [NULL]
    ensures Resets(n)
  {
    forall i | 0 <= i < |n.resets|
      ensures var e := n.resets[i];
              e.failed <= e.found < Updates(n, e.service) && Round(e.found - e.failed) && Past(n, e.service)[e.found + 1] == NULL
    {
      if i < |r.resets| {
        assert n.resets[i] == r.resets[i];
      }
    }
    forall i, j | 0 <= i < j < |n.resets| && n.resets[i].service == n.resets[j].service
      ensures n.resets[i].found < n.resets[j].found
    {
      assert n.resets[i] == r.resets[i];
    }
  }

  lemma {:induction false} SetKeeps(r: Run, service: Service, c: Callbacks)
    requires Inv(r) && Writable(r.s)
    ensures Inv(Next(r, Set(service, c)))
  {
    var n := Next(r, Set(service, c));
    BooksGrow(Of(r.s, service), Past(r, service), Installed(service, c));
    ResetsStay(r, n);
  }

  lemma {:induction false} ResetKeeps(r: Run, t: nat, service: Service)
    requires Inv(r) && Enabled(r, Write(t)) && service == r.s.noted[t].service
    requires r.s.noted[t].counter == Of(r.s, service).counter
    ensures Inv(Next(r, Write(t)))
  {
    var n := Next(r, Write(t));
    ShownEqual(FailedOn(r, t), Updates(r, service));
    BooksGrow(Of(r.s, service), Past(r, service), NULL);
    ResetsGrow(r, n, Reset(service, FailedOn(r, t), Updates(r, service)));
  }

  lemma {:induction false} WriteKeeps(r: Run, t: nat)
    requires Inv(r) && Enabled(r, Write(t))
    ensures Inv(Next(r, Write(t)))
  {
    if r.s.noted[t].counter == Of(r.s, r.s.noted[t].service).counter {
      ResetKeeps(r, t, r.s.noted[t].service);
    } else {
      ResetsStay(r, Next(r, Write(t)));
    }
  }

  lemma {:induction false} ReadersKeep(r: Run, step: Step)
    requires Inv(r) && Enabled(r, step) && (step.Enter? || step.Leave? || step.Fail?)
    ensures Inv(Next(r, step))
  {
    ResetsStay(r, Next(r, step));
  }

  lemma {:induction false} StepKeeps(r: Run, step: Step)
    requires Inv(r) && Enabled(r, step)
    ensures Inv(Next(r, step))
  {
    match step
    case Set(service, c) => SetKeeps(r, service, c);
    case Write(t) => WriteKeeps(r, t);
    case _ => ReadersKeep(r, step);
  }

  /** What holds in every reachable state, whatever the threads do. */
  lemma {:induction false} EveryRun(r: Run, steps: seq<Step>)
    requires Inv(r) && Allowed(r, steps)
    ensures Inv(After(r, steps))
    decreases |steps|
  {
    if steps != [] {
      StepKeeps(r, steps[0]);
      EveryRun(Next(r, steps[0]), steps[1..]);
    }
  }

  /** The two 1.1 pointers are both null or both set in every reachable state. */
  lemma {:induction false} NeverHalfSet(steps: seq<Step>)
    requires Allowed(START, steps)
    ensures BothOrNone(After(START, steps).s.radio.callbacks)
  {
    EveryRun(START, steps);
  }

  lemma {:induction false} WriteMeans(r: Run, t: nat, n: Run, service: Service, failed: nat)
    requires Inv(r) && Enabled(r, Write(t)) && n == Next(r, Write(t))
    requires service == r.s.noted[t].service && failed == FailedOn(r, t)
    ensures failed <= Updates(r, service)
    ensures if Round(Updates(r, service) - failed)
            then Past(n, service) == Past(r, service) + [NULL] && Of(n.s, service).callbacks == NULL
            else Past(n, service) == Past(r, service) && Of(n.s, service) == Of(r.s, service)
    ensures forall other :: other != service ==> Of(n.s, other) == Of(r.s, other)
  {
    ShownEqual(failed, Updates(r, service));
  }

  lemma {:induction false} ResetsAt(r: Run, t: nat, n: Run, service: Service, failed: nat)
    requires Inv(r) && Enabled(r, Write(t)) && n == Next(r, Write(t)) && service == r.s.noted[t].service && failed == FailedOn(r, t)
    ensures failed <= Updates(r, service) < |Past(r, service)|
    ensures if (Updates(r, service) - failed) % WRAP == 0
            then Past(n, service) == Past(r, service) + [NULL] && Of(n.s, service).callbacks == NULL &&
                 (Updates(r, service) - failed < WRAP ==> Past(r, service)[failed] == Of(r.s, service).callbacks)
            else Past(n, service) == Past(r, service) && Of(n.s, service) == Of(r.s, service)
    ensures forall other :: other != service ==> Of(n.s, other) == Of(r.s, other)
  {
    WriteMeans(r, t, n, service, failed);
  }

  /** A failed call resets exactly when the number of updates since it failed is a multiple of 2^32: the
      callbacks it resets are then the ones it failed on, or ones installed after at least 2^32 updates.
      Otherwise the callbacks of both services stay. */
  lemma {:induction false} ResetsIff(steps: seq<Step>, t: nat)
    requires Allowed(START, steps) && Enabled(After(START, steps), Write(t))
    ensures var r := After(START, steps);
            var n, service, failed := Next(r, Write(t)), r.s.noted[t].service, FailedOn(r, t);
            failed <= Updates(r, service) < |Past(r, service)| &&
            (if (Updates(r, service) - failed) % WRAP == 0
             then Past(n, service) == Past(r, service) + [NULL] && Of(n.s, service).callbacks == NULL &&
                  (Updates(r, service) - failed < WRAP ==> Past(r, service)[failed] == Of(r.s, service).callbacks)
             else Past(n, service) == Past(r, service) && Of(n.s, service) == Of(r.s, service)) &&
            (forall other :: other != service ==> Of(n.s, other) == Of(r.s, other))
  {
    EveryRun(START, steps);
    var r := After(START, steps);
    ResetsAt(r, t, Next(r, Write(t)), r.s.noted[t].service, FailedOn(r, t));
  }

  /** One failure resets at most once: two resets of the same service that failed on the same callbacks
      lie a nonzero multiple of 2^32 updates apart. */
  lemma {:induction false} ResetOnce(steps: seq<Step>, i: nat, j: nat)
    requires Allowed(START, steps) && i < j < |After(START, steps).resets|
    requires After(START, steps).resets[i].service == After(START, steps).resets[j].service
    requires After(START, steps).resets[i].failed == After(START, steps).resets[j].failed
    ensures var e, f := After(START, steps).resets[i], After(START, steps).resets[j];
            e.found + WRAP <= f.found && (f.found - e.found) % WRAP == 0
  {
    EveryRun(START, steps);
  }

  predicate Spares(r: Run, service: Service, step: Step) {
    match step
    case Set(other, _) => other != service
    case Fail(_, other) => other != service
    case _ => true
  }

  ghost predicate NobodyMatches(s: Slot, service: Service) {
    forall t :: t in s.noted && s.noted[t].service == service ==> s.noted[t].counter != Of(s, service).counter
  }

  /** Callbacks survive every interleaving of earlier failures: as long as no call fails on them and they
      are not replaced, they stay, if no thread waits with the counter they have. */
  lemma {:induction false} FreshSurvive(r: Run, service: Service, steps: seq<Step>)
    requires Allowed(r, steps) && NobodyMatches(r.s, service)
    requires forall i :: 0 <= i < |steps| ==> Spares(r, service, steps[i])
    ensures Of(After(r, steps).s, service) == Of(r.s, service) && NobodyMatches(After(r, steps).s, service)
    decreases |steps|
  {
    if steps != [] {
      var n := Next(r, steps[0]);
      assert Spares(r, service, steps[0]);
      assert Of(n.s, service) == Of(r.s, service) && NobodyMatches(n.s, service);
      forall i | 0 <= i < |steps[1..]| ensures Spares(n, service, steps[1..][i]) {
        assert Spares(r, service, steps[i + 1]);
      }
      FreshSurvive(n, service, steps[1..]);
    }
  }

  /** Just after setResponseFunctions no thread waits with the counter unless it has waited through
      2^32 updates, counting this one. */
  lemma {:induction false} FreshUnmatchedIff(steps: seq<Step>, service: Service, c: Callbacks)
    requires Allowed(START, steps) && Enabled(After(START, steps), Set(service, c))
    ensures var r := After(START, steps);
            NobodyMatches(Next(r, Set(service, c)).s, service) <==>
              forall t :: t in r.s.noted && r.s.noted[t].service == service ==> !Round(Updates(r, service) + 1 - FailedOn(r, t))
  {
    EveryRun(START, steps);
    SetMatches(After(START, steps), service, c);
  }

  lemma {:induction false} SetMatches(r: Run, service: Service, c: Callbacks)
    requires Inv(r) && Writable(r.s)
    ensures NobodyMatches(Next(r, Set(service, c)).s, service) <==>
              forall t :: t in r.s.noted && r.s.noted[t].service == service ==> !Round(Updates(r, service) + 1 - FailedOn(r, t))
  {
    var n := Next(r, Set(service, c));
    SetKeeps(r, service, c);
    forall t | t in r.s.noted && r.s.noted[t].service == service
      ensures (n.s.noted[t].counter == Of(n.s, service).counter) <==> Round(Updates(r, service) + 1 - FailedOn(r, t))
    {
      SetMeets(r, n, t, service);
    }
  }

  lemma {:induction false} SetMeets(r: Run, n: Run, t: nat, service: Service)
    requires Inv(r) && Inv(n) && n.s.noted == r.s.noted && n.failedOn == r.failedOn && t in r.s.noted && r.s.noted[t].service == service
    requires Updates(n, service) == Updates(r, service) + 1
    ensures FailedOn(r, t) <= Updates(r, service)
    ensures (n.s.noted[t].counter == Of(n.s, service).counter) <==> Round(Updates(r, service) + 1 - FailedOn(r, t))
  {
    ShownEqual(FailedOn(n, t), Updates(n, service));
  }

  // ---------- The whole turn does happen ----------

  function Sets(c: Callbacks, n: nat): seq<Step>
    decreases n, c
  {
    if n == 0 then [] else [Set(Radio, c)] + Sets(c, n - 1)
  }

  lemma {:induction false} SetsRun(r: Run, c: Callbacks, n: nat)
    requires Inv(r) && Writable(r.s)
    ensures Allowed(r, Sets(c, n))
    ensures var m := After(r, Sets(c, n));
            Inv(m) && m.s.noted == r.s.noted && Writable(m.s) && m.failedOn == r.failedOn &&
            Updates(m, Radio) == Updates(r, Radio) + n && (n > 0 ==> m.s.radio.callbacks == Installed(Radio, c))
    decreases n
  {
    if n > 0 {
      var steps := Sets(c, n);
      assert steps[0] == Set(Radio, c) && steps[1..] == Sets(c, n - 1);
      SetKeeps(r, Radio, c);
      SetsRun(Next(r, Set(Radio, c)), c, n - 1);
    }
  }

  function FailedOnce(): Run {
    Next(Next(START, Enter(0)), Fail(0, Radio))
  }

  /** The counter is no protection against a thread that waits through exactly 2^32 updates: the
      callbacks installed last, on which no call has failed, are erased. */
  lemma {:induction false} StaleErasure(c: Callbacks, n: nat)
    requires n == WRAP
    ensures Allowed(FailedOnce(), Sets(c, n)) && Enabled(After(FailedOnce(), Sets(c, n)), Write(0))
    ensures var r := After(FailedOnce(), Sets(c, n));
            r.s.radio.callbacks == Installed(Radio, c) && FailedOn(r, 0) < Updates(r, Radio) &&
            Next(r, Write(0)).s.radio.callbacks == NULL
  {
    FailedOnceIs();
    SetsRun(FailedOnce(), c, n);
    LastSetErased(After(FailedOnce(), Sets(c, n)), c, n);
  }

  lemma {:induction false} FailedOnceIs()
    ensures var r := FailedOnce();
            Inv(r) && Writable(r.s) && 0 in r.s.noted && r.s.noted[0].service == Radio && FailedOn(r, 0) == 0 && Updates(r, Radio) == 0
  {}

  lemma {:induction false} LastSetErased(r: Run, c: Callbacks, n: nat)
    requires Inv(r) && Writable(r.s) && 0 in r.s.noted && r.s.noted[0].service == Radio && FailedOn(r, 0) == 0
    requires Updates(r, Radio) == n == WRAP
    ensures FailedOn(r, 0) < Updates(r, Radio) && Next(r, Write(0)).s.radio.callbacks == NULL
  {
    WriteMeans(r, 0, Next(r, Write(0)), Radio, 0);
  }
}
