/** The power HAL (power_sc8830.c): a frequency window moved by hints, the screen and a timer thread. */
module PowerHal {

  const FREQ_MIN := 768000
  const FREQ_INTERACTIVE := 1000000
  const FREQ_LAUNCH := 1200000
  const FREQ_MAX := 1300000
  const FREQ_MAX_SCREEN_OFF := 1000000
  const FREQ_MAX_LOW_POWER := 1000000
  const BOOST_MS_INTERACTION := 800
  const BOOST_MS_LAUNCH := 2000

  datatype Window = Window(min: int, max: int) {
    predicate Legal() { min <= max }
  }

  /** One write to scaling_min_freq or scaling_max_freq. */
  datatype Write = Min(value: int) | Max(value: int)

  datatype Power = Power(
    screenOn: bool,
    lowPower: bool,
    boostFreq: int,       // 0 is no boost
    boostUntil: int,
    cur: Window,          // cur_min, cur_max: what the HAL believes
    inited: bool,
    kernel: Window,       // what the kernel has
    log: seq<Write>)      // the writes so far, all of which succeed

  // ---------- The window that is wanted ----------

  function Least(x: int, y: int): int { if x <= y then x else y }

  function Greatest(x: int, y: int): int { if x >= y then x else y }

  /** The ceiling is lower with the screen off or in low power; the floor is the boost, under the ceiling. */
  function Target(screenOn: bool, lowPower: bool, boostFreq: int): (w: Window)
    ensures w.Legal() && w.max <= FREQ_MAX
    ensures boostFreq == 0 || boostFreq >= FREQ_MIN ==> w.min >= FREQ_MIN
  {
    var ceiling := if screenOn then FREQ_MAX else FREQ_MAX_SCREEN_OFF;
    var max := if lowPower then Least(ceiling, FREQ_MAX_LOW_POWER) else ceiling;
    Window(Least(max, if boostFreq > 0 then boostFreq else FREQ_MIN), max)
  }

  function Wanted(p: Power): Window {
    Target(p.screenOn, p.lowPower, p.boostFreq)
  }

  // ---------- Writes, one at a time ----------

  function Written(w: Window, x: Write): Window {
    match x
    case Min(v) => w.(min := v)
    case Max(v) => w.(max := v)
  }

  function AllWritten(w: Window, xs: seq<Write>): Window {
    if xs == [] then w else Written(AllWritten(w, xs[..|xs| - 1]), xs[|xs| - 1])
  }

  /** The window is legal after every single write. */
  ghost predicate AlwaysLegal(w: Window, xs: seq<Write>) {
    forall n :: 0 <= n <= |xs| ==> AllWritten(w, xs[..n]).Legal()
  }

  function If(b: bool, x: Write): seq<Write> {
    if b then [x] else []
  }

  /** Widen first, then narrow, and write only what changes. */
  function Moves(from: Window, to: Window): seq<Write> {
    If(to.max > from.max, Max(to.max)) + If(to.min != from.min, Min(to.min)) + If(to.max < from.max, Max(to.max))
  }

  function ApplyLocked(p: Power): Power {
    p.(cur := Wanted(p), log := p.log + Moves(p.cur, Wanted(p)), kernel := AllWritten(p.kernel, Moves(p.cur, Wanted(p))))
  }

  // ---------- The locked sections of the source ----------

  function Boost(p: Power, freq: int, until: int): Power {
    ApplyLocked(p.(boostFreq := Greatest(p.boostFreq, freq), boostUntil := Greatest(p.boostUntil, until)))
  }

  /** One turn of the timer thread: nothing to do, time to end the boost, or wait for the deadline. */
  function TimerTurn(p: Power, now: int): Power {
    if p.boostFreq != 0 && now >= p.boostUntil then ApplyLocked(p.(boostFreq := 0)) else p
  }

  function Init(p: Power): Power {
    if p.inited then p
    else p.(cur := Window(FREQ_MIN, FREQ_MAX), inited := true, log := p.log + [Max(FREQ_MAX), Min(FREQ_MIN)],
            kernel := Window(FREQ_MIN, FREQ_MAX))
  }

  function SetInteractive(p: Power, on: bool): Power {
    ApplyLocked(if on then p.(screenOn := true) else p.(screenOn := false, boostFreq := 0, boostUntil := 0))
  }

  function LowPower(p: Power, on: bool): Power {
    ApplyLocked(p.(lowPower := on))
  }

  // ---------- The methods of the source ----------

  class A1000Power {
    var screenOn: bool
    var lowPower: bool
    var boostFreq: int
    var boostUntil: int
    var curMin: int
    var curMax: int
    var inited: bool
    var kernel: Window
    var log: seq<Write>

    function State(): Power reads this {
      Power(screenOn, lowPower, boostFreq, boostUntil, Window(curMin, curMax), inited, kernel, log)
    }

    constructor (kernel: Window)
      ensures State() == Power(true, false, 0, 0, Window(-1, -1), false, kernel, [])
    {
      screenOn, lowPower, boostFreq, boostUntil := true, false, 0, 0;
      curMin, curMax, inited := -1, -1, false;
      this.kernel, log := kernel, [];
    }

    method SysfsWriteInt(x: Write)
      modifies this`kernel, this`log
      ensures kernel == Written(old(kernel), x) && log == old(log) + [x]
    {
      kernel := Written(kernel, x);
      log := log + [x];
    }

    /** apply_locked. */
    method Apply()
      modifies this`curMin, this`curMax, this`kernel, this`log
      ensures State() == ApplyLocked(old(State()))
    {
      var wantMax := FREQ_MAX;
      var wantMin := FREQ_MIN;
      if !screenOn {
        wantMax := FREQ_MAX_SCREEN_OFF;
      }
      if lowPower && wantMax > FREQ_MAX_LOW_POWER {
        wantMax := FREQ_MAX_LOW_POWER;
      }
      if boostFreq > 0 {
        wantMin := boostFreq;
      }
      if wantMin > wantMax {
        wantMin := wantMax;
      }
      WriteChanged(wantMin, wantMax);
    }

    /** The writes of apply_locked. */
    method WriteChanged(wantMin: int, wantMax: int)
      modifies this`curMin, this`curMax, this`kernel, this`log
      ensures curMin == wantMin && curMax == wantMax
      ensures var moves := Moves(Window(old(curMin), old(curMax)), Window(wantMin, wantMax));
              log == old(log) + moves && kernel == AllWritten(old(kernel), moves)
    {
      MovesWritten(kernel, Window(curMin, curMax), Window(wantMin, wantMax));
      if wantMax > curMax {
        SysfsWriteInt(Max(wantMax));
        curMax := wantMax;
      }
      if wantMin != curMin {
        SysfsWriteInt(Min(wantMin));
        curMin := wantMin;
      }
      if wantMax < curMax {
        SysfsWriteInt(Max(wantMax));
        curMax := wantMax;
      }
    }

    /** boost, from the lock on; until was computed before. */
    method BoostLocked(freq: int, until: int)
      modifies this
      ensures State() == Boost(old(State()), freq, until)
    {
      if freq > boostFreq {
        boostFreq := freq;
      }
      if until > boostUntil {
        boostUntil := until;
      }
      Apply();
    }

    /** One turn of the loop in boost_thread_fn; the result says whether it waits before the next. */
    method BoostThreadTurn(now: int) returns (waits: bool)
      modifies this
      ensures State() == TimerTurn(old(State()), now)
      ensures waits == (old(boostFreq) == 0 || now < old(boostUntil))
    {
      if boostFreq == 0 {
        return true;
      }
      if now >= boostUntil {
        boostFreq := 0;
        Apply();
        return false;
      }
      waits := true;
    }

    /** a1000_power_init. */
    method PowerInit()
      modifies this
      ensures State() == Init(old(State()))
    {
      if !inited {
        SysfsWriteInt(Max(FREQ_MAX));
        SysfsWriteInt(Min(FREQ_MIN));
        curMax := FREQ_MAX;
        curMin := FREQ_MIN;
        inited := true;
        assert log == old(log) + [Max(FREQ_MAX), Min(FREQ_MIN)];
      }
    }

    /** a1000_set_interactive. */
    method Interactive(on: bool)
      modifies this
      ensures State() == SetInteractive(old(State()), on)
    {
      screenOn := on;
      if !on {
        boostFreq := 0;
        boostUntil := 0;
      }
      Apply();
    }

    /** a1000_power_hint, POWER_HINT_LOW_POWER. */
    method HintLowPower(on: bool)
      modifies this
      ensures State() == LowPower(old(State()), on)
    {
      lowPower := on;
      Apply();
    }
  }

  lemma {:induction false} WrittenMore(w: Window, xs: seq<Write>, x: Write)
    ensures AllWritten(w, xs + [x]) == Written(AllWritten(w, xs), x)
  {
    assert (xs + [x])[..|xs|] == xs;
  }

  lemma {:induction false} IfWritten(w: Window, xs: seq<Write>, b: bool, x: Write)
    ensures AllWritten(w, xs + If(b, x)) == if b then Written(AllWritten(w, xs), x) else AllWritten(w, xs)
  {
    if b {
      WrittenMore(w, xs, x);
    } else {
      assert xs + [] == xs;
    }
  }

  lemma {:induction false} MovesWritten(w: Window, from: Window, to: Window)
    ensures var u := if to.max > from.max then Written(w, Max(to.max)) else w;
            var v := if to.min != from.min then Written(u, Min(to.min)) else u;
            AllWritten(w, Moves(from, to)) == if to.max < from.max then Written(v, Max(to.max)) else v
  {
    var a := If(to.max > from.max, Max(to.max));
    var b := a + If(to.min != from.min, Min(to.min));
    assert [] + a == a;
    IfWritten(w, [], to.max > from.max, Max(to.max));
    IfWritten(w, a, to.min != from.min, Min(to.min));
    IfWritten(w, b, to.max < from.max, Max(to.max));
  }

  /** Only what changes is written, the ceiling first when it rises and last when it falls. */
  lemma {:induction false} MovesMean(from: Window, to: Window, x: Write)
    ensures var m := Moves(from, to);
            (x in m <==> match x case Max(v) => v == to.max != from.max case Min(v) => v == to.min != from.min) &&
            |m| <= 2 && (to.max > from.max ==> m[0] == Max(to.max)) && (to.max < from.max ==> m[|m| - 1] == Max(to.max)) &&
            (|m| == 2 ==> m[0] != m[1])
  {
    var a, b := If(to.max > from.max, Max(to.max)), If(to.min != from.min, Min(to.min));
    var c := If(to.max < from.max, Max(to.max));
    assert x in Moves(from, to) <==> x in a || x in b || x in c;
  }

  // ---------- Every single write ----------

  lemma {:induction false} AllWrittenSplit(w: Window, xs: seq<Write>, ys: seq<Write>)
    ensures AllWritten(w, xs + ys) == AllWritten(AllWritten(w, xs), ys)
    decreases |ys|
  {
    if ys == [] {
      assert xs + ys == xs;
    } else {
      var n := |ys| - 1;
      assert (xs + ys)[..|xs| + n] == xs + ys[..n];
      AllWrittenSplit(w, xs, ys[..n]);
    }
  }

  lemma {:induction false} LegalOn(w: Window, xs: seq<Write>, ys: seq<Write>)
    requires AlwaysLegal(w, xs) && AlwaysLegal(AllWritten(w, xs), ys)
    ensures AlwaysLegal(w, xs + ys)
  {
    forall n | 0 <= n <= |xs + ys| ensures AllWritten(w, (xs + ys)[..n]).Legal() {
      if n <= |xs| {
        assert (xs + ys)[..n] == xs[..n];
      } else {
        assert (xs + ys)[..n] == xs + ys[..n - |xs|];
        AllWrittenSplit(w, xs, ys[..n - |xs|]);
      }
    }
  }

  lemma {:induction false} OneWrite(w: Window, x: Write)
    requires w.Legal() && Written(w, x).Legal()
    ensures AlwaysLegal(w, [x]) && AllWritten(w, [x]) == Written(w, x)
  {
    WrittenMore(w, [], x);
    assert [] + [x] == [x] && [x][..0] == [] && [x][..1] == [x];
  }

  lemma {:induction false} NoWrite(w: Window)
    requires w.Legal()
    ensures AlwaysLegal(w, []) && AllWritten(w, []) == w
  {}

  lemma {:induction false} OptionalWrite(w: Window, b: bool, x: Write)
    requires w.Legal() && (b ==> Written(w, x).Legal())
    ensures AlwaysLegal(w, If(b, x)) && AllWritten(w, If(b, x)) == if b then Written(w, x) else w
  {
    if b {
      OneWrite(w, x);
    } else {
      NoWrite(w);
    }
  }

  /** Between any two legal windows the moves pass through legal windows only. */
  lemma {:induction false} MovesAreLegal(from: Window, to: Window)
    requires from.Legal() && to.Legal()
    ensures AlwaysLegal(from, Moves(from, to)) && AllWritten(from, Moves(from, to)) == to
  {
    var a, b, c := If(to.max > from.max, Max(to.max)), If(to.min != from.min, Min(to.min)), If(to.max < from.max, Max(to.max));
    OptionalWrite(from, to.max > from.max, Max(to.max));
    var w := AllWritten(from, a);
    OptionalWrite(w, to.min != from.min, Min(to.min));
    LegalOn(from, a, b);
    AllWrittenSplit(from, a, b);
    OptionalWrite(AllWritten(from, a + b), to.max < from.max, Max(to.max));
    LegalOn(from, a + b, c);
    AllWrittenSplit(from, a + b, c);
  }

  // ---------- Runs ----------

  /** POWER_HINT_INTERACTION and POWER_HINT_LAUNCH. */
  datatype Hint = Interaction | Launch

  function Freq(h: Hint): int { if h == Launch then FREQ_LAUNCH else FREQ_INTERACTIVE }

  function Duration(h: Hint): int { if h == Launch then BOOST_MS_LAUNCH else BOOST_MS_INTERACTION }

  datatype Step =
    | Tick(ms: nat)
    | Sample(thread: nat, hint: Hint)   // boost before the lock: the clock is read
    | Locked(thread: nat)               // boost under the lock
    | Timer
    | Screen(on: bool)
    | Low(on: bool)
    | InitAgain

  /** A hint on its way from the clock to the lock. */
  datatype Asked = Asked(hint: Hint, until: int)

  /** The HAL with the clock, the hints between clock and lock, when the clock was last read for a hint,
      the hints taken in since the boost was last ended, and the deadlines since the screen last went off. */
  datatype Run = Run(p: Power, now: int, asked: map<nat, Asked>, lastHint: int, hints: seq<Hint>, deadlines: seq<int>)

  function Started(kernel: Window, now: int): Run {
    Run(Init(Power(true, false, 0, 0, Window(-1, -1), false, kernel, [])), now, map[], now, [], [])
  }

  predicate Enabled(r: Run, s: Step) {
    match s
    case Sample(t, _) => t !in r.asked
    case Locked(t) => t in r.asked
    case _ => true
  }

  function Next(r: Run, s: Step): Run
    requires Enabled(r, s)
  {
    match s
    case Tick(ms) => r.(now := r.now + ms)
    case Sample(t, h) => r.(asked := r.asked[t := Asked(h, r.now + Duration(h))], lastHint := r.now)
    case Locked(t) =>
      var a := r.asked[t];
      r.(p := Boost(r.p, Freq(a.hint), a.until), asked := r.asked - {t},
         hints := r.hints + [a.hint], deadlines := r.deadlines + [a.until])
    case Timer => r.(p := TimerTurn(r.p, r.now), hints := if r.p.boostFreq != 0 && r.now >= r.p.boostUntil then [] else r.hints)
    case Screen(on) => if on then r.(p := SetInteractive(r.p, true)) else r.(p := SetInteractive(r.p, false), hints := [], deadlines := [])
    case Low(on) => r.(p := LowPower(r.p, on))
    case InitAgain => r.(p := Init(r.p))
  }

  predicate Allowed(r: Run, steps: seq<Step>)
    decreases |steps|
  {
    steps == [] || (Enabled(r, steps[0]) && Allowed(Next(r, steps[0]), steps[1..]))
  }

  function After(r: Run, steps: seq<Step>): Run
    requires Allowed(r, steps)
    decreases |steps|
  {
    if steps == [] then r else After(Next(r, steps[0]), steps[1..])
  }

  function Strongest(hints: seq<Hint>): int {
    if hints == [] then 0 else Greatest(Strongest(hints[..|hints| - 1]), Freq(hints[|hints| - 1]))
  }

  function Latest(deadlines: seq<int>): int {
    if deadlines == [] then 0 else Greatest(Latest(deadlines[..|deadlines| - 1]), deadlines[|deadlines| - 1])
  }

  /** The kernel has the pair that is wanted, and came to it by legal writes. */
  ghost predicate Settled(p: Power, first: Window) {
    p.inited && p.kernel == p.cur == Wanted(p) && p.kernel == AllWritten(first, p.log) && AlwaysLegal(first, p.log)
  }

  /** The boost in force is the strongest hint, its deadline the latest. */
  ghost predicate Boosted(p: Power, now: int, hints: seq<Hint>, deadlines: seq<int>) {
    p.boostFreq == Strongest(hints) && p.boostUntil == Latest(deadlines) && (p.boostFreq == 0 ==> p.boostUntil <= now)
  }

  /** No deadline, taken in or on its way, is far beyond the last hint. */
  ghost predicate Clocked(until: int, now: int, asked: map<nat, Asked>, lastHint: int) {
    0 <= lastHint <= now && until <= lastHint + BOOST_MS_LAUNCH &&
    (forall t :: t in asked ==> asked[t].until <= lastHint + BOOST_MS_LAUNCH)
  }

  ghost predicate Inv(r: Run, first: Window) {
    Settled(r.p, first) && Boosted(r.p, r.now, r.hints, r.deadlines) && Clocked(r.p.boostUntil, r.now, r.asked, r.lastHint)
  }

  /** apply_locked leaves the pair that is wanted, by legal writes. */
  lemma {:induction false} ApplyKeeps(p: Power, first: Window, q: Power)
    requires p.inited && p.kernel == p.cur && p.kernel == AllWritten(first, p.log) && AlwaysLegal(first, p.log)
    requires q == ApplyLocked(p)
    ensures Settled(q, first) && q.boostFreq == p.boostFreq && q.boostUntil == p.boostUntil
  {
    assert p.log[..|p.log|] == p.log;
    MovesAreLegal(p.cur, Wanted(p));
    LegalOn(first, p.log, Moves(p.cur, Wanted(p)));
    AllWrittenSplit(first, p.log, Moves(p.cur, Wanted(p)));
  }

  lemma {:induction false} StrongestGrows(hints: seq<Hint>, h: Hint)
    ensures Strongest(hints + [h]) == Greatest(Strongest(hints), Freq(h)) > 0
  {
    assert (hints + [h])[..|hints|] == hints;
  }

  lemma {:induction false} LatestGrows(deadlines: seq<int>, d: int)
    ensures Latest(deadlines + [d]) == Greatest(Latest(deadlines), d)
  {
    assert (deadlines + [d])[..|deadlines|] == deadlines;
  }

  lemma {:induction false} LockedKeeps(r: Run, t: nat, first: Window)
    requires Inv(r, first) && t in r.asked
    ensures Inv(Next(r, Locked(t)), first)
  {
    var a, n := r.asked[t], Next(r, Locked(t));
    StrongestGrows(r.hints, a.hint);
    LatestGrows(r.deadlines, a.until);
    ApplyKeeps(r.p.(boostFreq := Greatest(r.p.boostFreq, Freq(a.hint)), boostUntil := Greatest(r.p.boostUntil, a.until)), first, n.p);
  }

  lemma {:induction false} TimerKeeps(r: Run, first: Window)
    requires Inv(r, first)
    ensures Inv(Next(r, Timer), first)
  {
    if r.p.boostFreq != 0 && r.now >= r.p.boostUntil {
      ApplyKeeps(r.p.(boostFreq := 0), first, Next(r, Timer).p);
    }
  }

  lemma {:induction false} ScreenKeeps(r: Run, on: bool, first: Window)
    requires Inv(r, first)
    ensures Inv(Next(r, Screen(on)), first)
  {
    var p := if on then r.p.(screenOn := true) else r.p.(screenOn := false, boostFreq := 0, boostUntil := 0);
    ApplyKeeps(p, first, Next(r, Screen(on)).p);
  }

  lemma {:induction false} LowKeeps(r: Run, on: bool, first: Window)
    requires Inv(r, first)
    ensures Inv(Next(r, Low(on)), first)
  {
    ApplyKeeps(r.p.(lowPower := on), first, Next(r, Low(on)).p);
  }

  /** Steps that write nothing. */
  lemma {:induction false} QuietKeeps(r: Run, s: Step, first: Window)
    requires Inv(r, first) && Enabled(r, s) && (s.Tick? || s.Sample? || s.InitAgain?)
    ensures Inv(Next(r, s), first)
  {}

  lemma {:induction false} StepKeeps(r: Run, s: Step, first: Window)
    requires Inv(r, first) && Enabled(r, s)
    ensures Inv(Next(r, s), first)
  {
    match s
    case Locked(t) => LockedKeeps(r, t, first);
    case Timer => TimerKeeps(r, first);
    case Screen(on) => ScreenKeeps(r, on, first);
    case Low(on) => LowKeeps(r, on, first);
    case _ => QuietKeeps(r, s, first);
  }

  /** The kernel accepts the two writes of init, in their order, exactly when its floor is not above the
      highest frequency. */
  lemma {:induction false} InitIsLegalIff(kernel: Window)
    requires kernel.Legal()
    ensures AlwaysLegal(kernel, [Max(FREQ_MAX), Min(FREQ_MIN)]) <==> kernel.min <= FREQ_MAX
    ensures AllWritten(kernel, [Max(FREQ_MAX), Min(FREQ_MIN)]) == Window(FREQ_MIN, FREQ_MAX)
  {
    var x, y := Max(FREQ_MAX), Min(FREQ_MIN);
    assert [x, y][..2] == [x, y] && [x, y][..1] == [x] && [x, y][..0] == [] && [x][..0] == [];
    assert AllWritten(kernel, [x]) == Written(kernel, x);
    assert AllWritten(kernel, [x, y]) == Written(Written(kernel, x), y);
    forall n | 0 <= n <= 2 && kernel.min <= FREQ_MAX ensures AllWritten(kernel, [x, y][..n]).Legal() {
      assert n == 0 || n == 1 || n == 2;
    }
  }

  lemma {:induction false} EveryRun(r: Run, steps: seq<Step>, first: Window)
    requires Inv(r, first) && Allowed(r, steps)
    ensures Inv(After(r, steps), first)
    decreases |steps|
  {
    if steps != [] {
      StepKeeps(r, steps[0], first);
      EveryRun(Next(r, steps[0]), steps[1..], first);
    }
  }

  lemma {:induction false} StartsWell(kernel: Window, now: int)
    requires kernel.Legal() && kernel.min <= FREQ_MAX && now >= 0
    ensures Inv(Started(kernel, now), kernel)
  {
    InitIsLegalIff(kernel);
    assert Started(kernel, now).p.log == [Max(FREQ_MAX), Min(FREQ_MIN)];
  }

  /** What each step does to the state the window depends on: nothing but the screen, the low-power hint and
      the boost matter, and a hint asks for its frequency for its time. */
  lemma {:induction false} StepMeans(r: Run, s: Step)
    requires Enabled(r, s)
    ensures var p, n := r.p, Next(r, s);
            n.p.screenOn == (if s.Screen? then s.on else p.screenOn) && n.p.lowPower == (if s.Low? then s.on else p.lowPower) &&
            (s == Screen(false) ==> n.p.boostFreq == 0 && n.p.boostUntil == 0) &&
            (s == Timer ==> n.p.boostFreq == if r.now >= p.boostUntil then 0 else p.boostFreq) &&
            (s.Sample? ==> n.asked[s.thread].hint == s.hint &&
                           n.asked[s.thread].until == r.now + if s.hint == Launch then 2000 else 800) &&
            (s.Locked? ==> n.p.boostFreq >= (if r.asked[s.thread].hint == Launch then 1200000 else 1000000) &&
                           n.p.boostUntil >= r.asked[s.thread].until) &&
            (s.Tick? || s.Sample? || s.Low? || s == Screen(true) ==> n.p.boostFreq == p.boostFreq && n.p.boostUntil == p.boostUntil)
  {}

  /** The window in kilohertz: the ceiling is 1300000 with the screen on and low power off and else 1000000;
      the floor is 768000 without a boost and else the boost, as far as the ceiling allows; and the boost is
      that of a launch if one is among the hints, that of an interaction if there are others, or none. */
  lemma {:induction false} WindowMeans(kernel: Window, now: int, steps: seq<Step>)
    requires kernel.Legal() && kernel.min <= FREQ_MAX && now >= 0 && Allowed(Started(kernel, now), steps)
    ensures var r := After(Started(kernel, now), steps);
            r.p.kernel.max == (if r.p.screenOn && !r.p.lowPower then 1300000 else 1000000) &&
            r.p.kernel.min == (if r.p.boostFreq == 0 then 768000 else if r.p.boostFreq <= r.p.kernel.max then r.p.boostFreq else r.p.kernel.max) &&
            r.p.boostFreq == if Launch in r.hints then 1200000 else if r.hints != [] then 1000000 else 0
  {
    StartsWell(kernel, now);
    EveryRun(Started(kernel, now), steps, kernel);
    StrongestIs(After(Started(kernel, now), steps).hints);
  }

  lemma {:induction false} StrongestIs(hints: seq<Hint>)
    ensures Strongest(hints) == if Launch in hints then 1200000 else if hints != [] then 1000000 else 0
    decreases |hints|
  {
    if hints != [] {
      StrongestIs(hints[..|hints| - 1]);
      assert hints == hints[..|hints| - 1] + [hints[|hints| - 1]];
    }
  }

  /** No illegal window in any run: after every single write of every interleaving the kernel's floor is
      at most its ceiling, and whenever the lock is free the pair is the one the state asks for. */
  lemma {:induction false} NeverIllegal(kernel: Window, now: int, steps: seq<Step>)
    requires kernel.Legal() && kernel.min <= FREQ_MAX && now >= 0 && Allowed(Started(kernel, now), steps)
    ensures var p := After(Started(kernel, now), steps).p;
            AlwaysLegal(kernel, p.log) && p.kernel == AllWritten(kernel, p.log) == p.cur == Target(p.screenOn, p.lowPower, p.boostFreq)
  {
    StartsWell(kernel, now);
    EveryRun(Started(kernel, now), steps, kernel);
  }

  /** The boost in force is the strongest hint since it was last ended, its deadline the latest one asked
      for since the screen last went off, and without a boost that deadline is past. */
  lemma {:induction false} BoostIsStrongest(kernel: Window, now: int, steps: seq<Step>)
    requires kernel.Legal() && kernel.min <= FREQ_MAX && now >= 0 && Allowed(Started(kernel, now), steps)
    ensures var r := After(Started(kernel, now), steps);
            r.p.boostFreq == Strongest(r.hints) && r.p.boostUntil == Latest(r.deadlines) &&
            (r.p.boostFreq == 0 <==> r.hints == []) && (r.p.boostFreq == 0 ==> r.p.boostUntil <= r.now)
  {
    StartsWell(kernel, now);
    EveryRun(Started(kernel, now), steps, kernel);
    var r := After(Started(kernel, now), steps);
    if r.hints != [] {
      var n := |r.hints| - 1;
      assert r.hints[..n] + [r.hints[n]] == r.hints;
      StrongestGrows(r.hints[..n], r.hints[n]);
    }
  }

  /** A turn of the timer thread at least 2000 ms after the clock was last read for a hint finds or leaves
      no boost, and with it the floor goes back. */
  lemma {:induction false} BoostsEnd(kernel: Window, now: int, steps: seq<Step>)
    requires kernel.Legal() && kernel.min <= FREQ_MAX && now >= 0 && Allowed(Started(kernel, now), steps)
    requires var r := After(Started(kernel, now), steps); r.now >= r.lastHint + BOOST_MS_LAUNCH
    ensures var p := Next(After(Started(kernel, now), steps), Timer).p;
            p.boostFreq == 0 && p.kernel.min == FREQ_MIN
  {
    StartsWell(kernel, now);
    EveryRun(Started(kernel, now), steps, kernel);
    StepKeeps(After(Started(kernel, now), steps), Timer, kernel);
  }
}
