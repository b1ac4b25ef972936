/**
 The fan once more, access by access: the timer interrupt may fall between any two accesses of
 `fan_control_task` to the variables they share, for instance between setting the timer active and
 clearing its counters.  The three minutes of cooldown are served even so.
 */
module FanSteps {
  import opened Bytes
  import FanControl

  /** The variables shared with the interrupt. */
  datatype Timer = Timer(active: bool, done: bool, ms: word, sec: byte, min: byte)

  /** What follows on clearing the counters. */
  datatype Then = CheckDone | DriveFan

  /** The next access of the control task to a shared variable, or to the pin. */
  datatype Pc =
    | Idle
    | HotStop
    | HotForget
    | ColdTest
    | ColdForget
    | WarmTest
    | WarmStart
    | DoneTest
    | Again
    | AgainStart
    | ClearMin(next: Then)
    | ClearSec(next: Then)
    | ClearMs(next: Then)
    | Drive

  datatype System = System(timer: Timer, fanState: bool, highTempSeen: bool, fanPin: bool, pc: Pc)

  /** `Sample` starts the control task with a filtered temperature, if it is idle; `Access` is its next access. */
  datatype Event = Tick | Sample(temp: real) | Access

  const INITIAL := System(Timer(false, false, 0, 0, 0), false, false, false, Idle)

  /** The fan part of the timer interrupt. */
  function Interrupted(t: Timer): Timer {
    if !t.active then t
    else if (t.ms + 1) % 0x1_0000 < 1000 then t.(ms := (t.ms + 1) % 0x1_0000)
    else if (t.sec + 1) % 0x100 < 60 then t.(ms := 0, sec := (t.sec + 1) % 0x100)
    else if (t.min + 1) % 0x100 < 3 then t.(ms := 0, sec := 0, min := (t.min + 1) % 0x100)
    else Timer(false, true, 0, 0, 0)
  }

  function Started(s: System, temp: real): System {
    if temp >= FanControl.HIGH then s.(fanState := true, highTempSeen := true, pc := HotStop)
    else if temp <= FanControl.LOW then s.(pc := ColdTest)
    else s.(pc := WarmTest)
  }

  function Accessed(s: System): System {
    var t := s.timer;
    match s.pc
    case Idle => s
    case HotStop => s.(timer := t.(active := false), pc := HotForget)
    case HotForget => s.(timer := t.(done := false), pc := ClearMin(DriveFan))
    case ColdTest =>
      if t.active then s.(pc := Drive) else s.(fanState := false, highTempSeen := false, pc := ColdForget)
    case ColdForget => s.(timer := t.(done := false), pc := ClearMin(DriveFan))
    case WarmTest => s.(pc := if s.highTempSeen && !t.active then WarmStart else DoneTest)
    case WarmStart => s.(timer := t.(active := true), fanState := true, pc := ClearMin(CheckDone))
    case DoneTest => s.(pc := if t.done then Again else Drive)
    case Again => s.(timer := t.(done := false), pc := AgainStart)
    case AgainStart => s.(timer := t.(active := true), fanState := true, pc := ClearMin(DriveFan))
    case ClearMin(next) => s.(timer := t.(min := 0), pc := ClearSec(next))
    case ClearSec(next) => s.(timer := t.(sec := 0), pc := ClearMs(next))
    case ClearMs(next) => s.(timer := t.(ms := 0), pc := if next == CheckDone then DoneTest else Drive)
    case Drive => s.(fanPin := s.fanState, pc := Idle)
  }

  function Step(s: System, e: Event): System {
    match e
    case Tick => s.(timer := Interrupted(s.timer))
    case Sample(temp) => if s.pc.Idle? then Started(s, temp) else s
    case Access => Accessed(s)
  }

  function Run(run: seq<Event>): System {
    if run == [] then INITIAL else Step(Run(run[..|run| - 1]), run[|run| - 1])
  }

  /** Number of timer interrupts in `run` from position `from` on. */
  function TicksSince(run: seq<Event>, from: nat): nat {
    if |run| <= from then 0
    else TicksSince(run[..|run| - 1], from) + if run[|run| - 1].Tick? then 1 else 0
  }

  /** The task is started at position `i`. */
  predicate Starts(run: seq<Event>, i: nat)
    requires i < |run|
  {
    run[i].Sample? && Run(run[..i]).pc.Idle?
  }

  predicate StartsHot(run: seq<Event>, i: nat)
    requires i < |run|
  {
    Starts(run, i) && run[i].temp >= FanControl.HIGH
  }

  predicate StartsWarm(run: seq<Event>, i: nat)
    requires i < |run|
  {
    Starts(run, i) && FanControl.LOW < run[i].temp < FanControl.HIGH
  }

  // ---------------------------------------------------------------------------
  // What every step keeps
  // ---------------------------------------------------------------------------

  /** The milliseconds counted so far. */
  function Counted(t: Timer): nat {
    t.ms + 1000 * t.sec + 60_000 * t.min
  }

  predicate Clearing(pc: Pc) {
    pc.ClearMin? || pc.ClearSec? || pc.ClearMs?
  }

  /** What is still to be cleared of the counters may be left over from a cooldown that a hot sample ended. */
  predicate ClearedUpTo(pc: Pc, t: Timer) {
    match pc
    case HotForget => true
    case ClearMin(DriveFan) => true
    case ClearSec(DriveFan) => t.min == 0
    case ClearMs(DriveFan) => t.min == 0 && t.sec == 0
    case _ => t.min == 0 && t.sec == 0 && t.ms == 0
  }

  /** The counters are in range, and zero while the timer is inactive. */
  predicate Sound(s: System) {
    var t := s.timer;
    && t.ms < 1000 && t.sec < 60 && t.min < 3
    && (s.pc.Idle? ==> s.fanPin == s.fanState)
    && (t.active || ClearedUpTo(s.pc, t))
  }

  /** One interrupt counts one millisecond, or is the one that ends the three minutes. */
  lemma TickCounts(t: Timer)
    requires t.active && t.ms < 1000 && t.sec < 60 && t.min < 3
    ensures var r := Interrupted(t);
      if Counted(t) + 1 < FanControl.COOLDOWN then
        && r.active && r.done == t.done && r.ms < 1000 && r.sec < 60 && r.min < 3
        && Counted(r) == Counted(t) + 1
      else
        r == Timer(false, true, 0, 0, 0)
  {
  }

  lemma TickIsSound(s: System)
    requires Sound(s)
    ensures Sound(Step(s, Tick))
  {
    hide Interrupted, Counted;
    if s.timer.active {
      TickCounts(s.timer);
    } else {
      NoTick(s.timer);
    }
  }

  /** What the control task's writes do to the count. */
  lemma ClearingCounts(t: Timer)
    ensures Counted(t) == 0 <==> t.ms == 0 && t.sec == 0 && t.min == 0
    ensures Counted(t.(min := 0)) <= Counted(t) && Counted(t.(sec := 0)) <= Counted(t)
    ensures Counted(t.(ms := 0)) <= Counted(t)
    ensures t.min == 0 && t.sec == 0 ==> Counted(t.(ms := 0)) == 0
    ensures Counted(t.(active := true)) == Counted(t.(active := false)) == Counted(t.(done := false)) == Counted(t)
  {
  }

  lemma NoTick(t: Timer)
    requires !t.active
    ensures Interrupted(t) == t
  {
  }

  lemma AccessIsSound(s: System)
    requires Sound(s)
    ensures Sound(Step(s, Access))
  {
    hide Interrupted;
    var r := Accessed(s);
    match s.pc {
      case Idle => assert Sound(r);
      case HotStop => assert Sound(r);
      case HotForget => assert Sound(r);
      case ColdTest => assert Sound(r);
      case ColdForget => assert Sound(r);
      case WarmTest => assert Sound(r);
      case WarmStart => assert Sound(r);
      case DoneTest => assert Sound(r);
      case Again => assert Sound(r);
      case AgainStart => assert Sound(r);
      case ClearMin(_) => assert Sound(r);
      case ClearSec(_) => assert Sound(r);
      case ClearMs(_) => assert Sound(r);
      case Drive => assert Sound(r);
    }
  }

  lemma SampleIsSound(s: System, temp: real)
    requires Sound(s)
    ensures Sound(Step(s, Sample(temp)))
  {
    hide Interrupted, Accessed, Counted;
  }

  lemma {:induction false} RunIsSound(run: seq<Event>)
    ensures Sound(Run(run))
  {
    hide Step, Sound;
    if run == [] {
      InitialIsSound();
    } else {
      var s := Run(run[..|run| - 1]);
      RunIsSound(run[..|run| - 1]);
      match run[|run| - 1] {
        case Tick => TickIsSound(s);
        case Sample(temp) => SampleIsSound(s, temp);
        case Access => AccessIsSound(s);
      }
    }
  }

  lemma InitialIsSound()
    ensures Sound(INITIAL)
  {
  }

  /** The fan is off for good, until a hot sample comes. */
  predicate Resting(s: System) {
    && !s.fanState && !s.highTempSeen && !s.timer.active && (s.pc.ColdForget? || !s.timer.done)
    && !s.pc.HotStop? && !s.pc.HotForget? && !s.pc.WarmStart? && !s.pc.Again? && !s.pc.AgainStart?
  }

  /** After a hot sample and before a warm one: the fan runs with the timer inactive, or rests. */
  predicate Hot(s: System) {
    || Resting(s)
    || (&& s.fanState && s.highTempSeen
        && (s.pc.HotStop? || (!s.timer.active && (s.pc.HotForget? || !s.timer.done)))
        && (s.pc.HotStop? || s.pc.HotForget? || s.pc.ColdTest? || s.pc.Drive? || s.pc.Idle?
            || (Clearing(s.pc) && s.pc.next == DriveFan)))
  }

  /**
   From the first warm sample on, with `ticks` interrupts since: all are served, or the fan rests,
   or the timer is about to be started, or it is active and has counted no more than there were.
   */
  predicate Cooling(s: System, ticks: nat) {
    || ticks >= FanControl.COOLDOWN
    || (Resting(s) && !s.fanPin)
    || (&& s.fanState && s.highTempSeen && !s.pc.HotStop? && !s.pc.HotForget?
        && if s.timer.active then Counted(s.timer) <= ticks else s.pc.WarmTest? || s.pc.WarmStart?)
  }

  lemma HotStep(s: System, e: Event)
    requires Sound(s) && Hot(s)
    requires e.Sample? && s.pc.Idle? ==> e.temp <= FanControl.LOW
    ensures Hot(Step(s, e))
  {
    hide Sound, Interrupted, Counted;
    match e {
      case Tick =>
        if s.timer.active {
          SoundTimer(s);
          TickCounts(s.timer);
        } else {
          NoTick(s.timer);
        }
      case Sample(temp) =>
      case Access => HotAccess(s);
    }
  }

  lemma SoundTimer(s: System)
    requires Sound(s)
    ensures s.timer.ms < 1000 && s.timer.sec < 60 && s.timer.min < 3
  {
  }

  lemma HotAccess(s: System)
    requires Hot(s)
    ensures Hot(Accessed(s))
  {
  }

  lemma CoolingTick(s: System, ticks: nat)
    requires Sound(s) && Cooling(s, ticks)
    ensures Cooling(Step(s, Tick), ticks + 1)
  {
    hide Sound, Interrupted, Counted;
    if s.timer.active {
      SoundTimer(s);
      TickCounts(s.timer);
    } else {
      NoTick(s.timer);
    }
  }

  lemma CoolingAccess(s: System, ticks: nat)
    requires Sound(s) && Cooling(s, ticks)
    ensures Cooling(Step(s, Access), ticks)
  {
    hide Interrupted, Counted;
    ClearingCounts(s.timer);
  }

  lemma CoolingSample(s: System, temp: real, ticks: nat)
    requires Cooling(s, ticks) && (s.pc.Idle? ==> temp < FanControl.HIGH)
    ensures Cooling(Step(s, Sample(temp)), ticks)
  {
    hide Interrupted, Accessed, Counted;
  }

  lemma CoolingStep(s: System, e: Event, ticks: nat)
    requires Sound(s) && Cooling(s, ticks)
    requires e.Sample? && s.pc.Idle? ==> e.temp < FanControl.HIGH
    ensures Cooling(Step(s, e), ticks + if e.Tick? then 1 else 0)
  {
    hide Sound, Cooling, Step;
    match e {
      case Tick => CoolingTick(s, ticks);
      case Sample(temp) => CoolingSample(s, temp, ticks);
      case Access => CoolingAccess(s, ticks);
    }
  }

  lemma HotFromStart(s: System, temp: real)
    requires s.pc.Idle? && temp >= FanControl.HIGH
    ensures Hot(Step(s, Sample(temp)))
  {
  }

  lemma WarmFromHot(s: System, temp: real)
    requires Sound(s) && Hot(s) && s.pc.Idle? && FanControl.LOW < temp < FanControl.HIGH
    ensures Cooling(Step(s, Sample(temp)), 0)
  {
    hide Interrupted, Accessed;
  }

  lemma {:induction false} HotUntilWarm(run: seq<Event>, h: nat, n: nat)
    requires h < n <= |run| && StartsHot(run, h)
    requires forall i :: h < i < n ==> !StartsHot(run, i) && !StartsWarm(run, i)
    ensures Hot(Run(run[..n]))
    decreases n
  {
    hide Step, Sound, Hot;
    assert run[..n][..n - 1] == run[..n - 1];
    var s := Run(run[..n - 1]);
    if n == h + 1 {
      HotFromStart(s, run[h].temp);
    } else {
      RunIsSound(run[..n - 1]);
      HotUntilWarm(run, h, n - 1);
      assert !StartsHot(run, n - 1) && !StartsWarm(run, n - 1);
      HotStep(s, run[n - 1]);
    }
  }

  lemma {:induction false} CoolingSince(run: seq<Event>, h: nat, p: nat, n: nat)
    requires h < p < n <= |run| && StartsHot(run, h) && StartsWarm(run, p)
    requires forall i :: h < i < n ==> !StartsHot(run, i)
    requires forall i :: h < i < p ==> !StartsWarm(run, i)
    ensures Cooling(Run(run[..n]), TicksSince(run[..n], p))
    decreases n
  {
    hide Step, Sound, Hot, Cooling;
    assert run[..n][..n - 1] == run[..n - 1];
    RunIsSound(run[..n - 1]);
    if n == p + 1 {
      HotUntilWarm(run, h, p);
      WarmFromHot(Run(run[..p]), run[p].temp);
    } else {
      CoolingSince(run, h, p, n - 1);
      assert !StartsHot(run, n - 1);
      CoolingStep(Run(run[..n - 1]), run[n - 1], TicksSince(run[..n - 1], p));
    }
  }

  /**
   Let the control task be started with a hot temperature at `h`, for the last time before the pin switches
   the fan off at `n`, and with a warm one at `p`, for the first time since.  Then at least three
   minutes of interrupts have come since `p`, wherever they fell.
   */
  lemma CooldownServed(run: seq<Event>, h: nat, p: nat, n: nat)
    requires h < p < n < |run| && StartsHot(run, h) && StartsWarm(run, p)
    requires forall i :: h < i < n ==> !StartsHot(run, i)
    requires forall i :: h < i < p ==> !StartsWarm(run, i)
    requires Run(run[..n]).fanPin && !Run(run[..n + 1]).fanPin
    ensures TicksSince(run[..n], p) >= FanControl.COOLDOWN
  {
    assert run[..n + 1][..n] == run[..n];
    CoolingSince(run, h, p, n);
  }

  // ---------------------------------------------------------------------------
  // What a run of the control task comes to
  // ---------------------------------------------------------------------------

  /** An upper bound on the accesses left. */
  function AccessesLeft(pc: Pc): nat {
    match pc
    case Idle => 0
    case Drive => 1
    case ClearMs(next) => if next == DriveFan then 2 else 9
    case ClearSec(next) => if next == DriveFan then 3 else 10
    case ClearMin(next) => if next == DriveFan then 4 else 11
    case AgainStart => 5
    case Again => 6
    case DoneTest => 7
    case WarmStart => 12
    case WarmTest => 13
    case HotForget => 5
    case HotStop => 6
    case ColdForget => 5
    case ColdTest => 6
  }

  /** Every access brings the control task nearer to its end, which takes at most thirteen of them. */
  lemma TaskEnds(s: System)
    ensures s.pc.Idle? <==> AccessesLeft(s.pc) == 0
    ensures !s.pc.Idle? ==> AccessesLeft(Accessed(s).pc) < AccessesLeft(s.pc) <= 13
  {
  }

  /** Where it gets to without interrupts. */
  function Finish(s: System): (r: System)
    ensures r.pc.Idle?
    decreases AccessesLeft(s.pc)
  {
    if s.pc.Idle? then s
    else
      TaskEnds(s);
      Finish(Accessed(s))
  }

  /** Left alone, it has the effect of the source's three branches. */
  function Effect(s: System, temp: real): System {
    var t := s.timer;
    var zero := Timer(false, false, 0, 0, 0);
    if temp >= 60.0 then System(zero, true, true, true, Idle)
    else if temp <= 50.0 then
      if t.active then s.(fanPin := s.fanState) else System(zero, false, false, false, Idle)
    else if t.done || (s.highTempSeen && !t.active) then
      System(zero.(active := true), true, s.highTempSeen, true, Idle)
    else s.(fanPin := s.fanState)
  }

  lemma ClearsAll(s: System)
    requires s.pc == ClearMin(DriveFan)
    ensures Finish(s) == s.(timer := s.timer.(min := 0, sec := 0, ms := 0), fanPin := s.fanState, pc := Idle)
  {
    var a := Accessed(s);
    var b := Accessed(a);
    var c := Accessed(b);
    assert Finish(s) == Finish(a) == Finish(b) == Finish(c) == Finish(Accessed(c));
  }

  lemma ClearsThenChecks(s: System)
    requires s.pc == ClearMin(CheckDone)
    ensures Finish(s) == Finish(s.(timer := s.timer.(min := 0, sec := 0, ms := 0), pc := DoneTest))
  {
    var a := Accessed(s);
    var b := Accessed(a);
    assert Finish(s) == Finish(a) == Finish(b) == Finish(Accessed(b));
  }

  lemma ChecksDone(s: System)
    requires s.pc.DoneTest?
    ensures Finish(s) == if s.timer.done then System(Timer(true, false, 0, 0, 0), true, s.highTempSeen, true, Idle)
                         else s.(fanPin := s.fanState, pc := Idle)
  {
    hide ClearedUpTo, Sound;
    var a := Accessed(s);
    assert Finish(s) == Finish(a) == Finish(Accessed(a));
    if s.timer.done {
      var b := Accessed(a);
      assert Finish(a) == Finish(b) == Finish(Accessed(b));
      ClearsAll(Accessed(b));
    }
  }

  lemma HotAlone(s: System)
    requires s.pc.HotStop?
    ensures Finish(s) == System(Timer(false, false, 0, 0, 0), s.fanState, s.highTempSeen, s.fanState, Idle)
  {
    var a := Accessed(s);
    var b := Accessed(a);
    assert Finish(s) == Finish(a) == Finish(b);
    ClearsAll(b);
  }

  lemma ColdAlone(s: System)
    requires s.pc.ColdTest?
    ensures Finish(s) == if s.timer.active then s.(fanPin := s.fanState, pc := Idle)
                         else System(Timer(false, false, 0, 0, 0), false, false, false, Idle)
  {
    var a := Accessed(s);
    assert Finish(s) == Finish(a) == Finish(Accessed(a));
    if !s.timer.active {
      ClearsAll(Accessed(a));
    }
  }

  lemma WarmAlone(s: System)
    requires s.pc.WarmTest? && (s.timer.done ==> !s.timer.active)
    ensures Finish(s) ==
      if s.timer.done || (s.highTempSeen && !s.timer.active) then
        System(Timer(true, false, 0, 0, 0), true, s.highTempSeen, true, Idle)
      else s.(fanPin := s.fanState, pc := Idle)
  {
    var a := Accessed(s);
    assert Finish(s) == Finish(a);
    if a.pc.WarmStart? {
      var b := Accessed(a);
      assert Finish(a) == Finish(b);
      ClearsThenChecks(b);
      ChecksDone(b.(timer := b.timer.(min := 0, sec := 0, ms := 0), pc := DoneTest));
    } else {
      ChecksDone(a);
    }
  }

  lemma TaskAlone(s: System, temp: real)
    requires s.pc.Idle? && (s.timer.done ==> !s.timer.active)
    ensures Finish(Started(s, temp)) == Effect(s, temp)
  {
    hide Finish, Accessed;
    if temp >= 60.0 {
      HotAlone(Started(s, temp));
    } else if temp <= 50.0 {
      ColdAlone(Started(s, temp));
    } else {
      WarmAlone(Started(s, temp));
    }
  }

  // ---------------------------------------------------------------------------
  // Refinement
  // ---------------------------------------------------------------------------

  /** No interrupt falls between the accesses of the control task. */
  predicate Undisturbed(run: seq<Event>) {
    forall i :: 0 <= i < |run| && run[i].Tick? ==> Run(run[..i]).pc.Idle?
  }

  /** The interrupts and the samples that started the control task. */
  function Taken(run: seq<Event>): seq<FanControl.Event> {
    if run == [] then []
    else
      var n := |run| - 1;
      Taken(run[..n]) + match run[n]
        case Tick => [FanControl.Tick]
        case Sample(temp) => if Run(run[..n]).pc.Idle? then [FanControl.Sample(temp)] else []
        case Access => []
  }

  predicate IsRequired(s: System, run: seq<FanControl.Event>) {
    var t := s.timer;
    && s.fanPin == s.fanState == s.highTempSeen
    && FanControl.AsRequired(run, s.fanPin, t.active, t.done, t.ms, t.sec, t.min)
  }

  lemma TickRequired(s: System, run: seq<FanControl.Event>)
    requires IsRequired(s, run)
    ensures IsRequired(Step(s, Tick), run + [FanControl.Tick])
  {
    hide Interrupted;
    var r := run + [FanControl.Tick];
    assert r[..|run|] == run;
    if s.timer.active {
      TickCounts(s.timer);
    } else {
      NoTick(s.timer);
    }
  }

  lemma SampleRequired(s: System, run: seq<FanControl.Event>, temp: real)
    requires IsRequired(s, run)
    ensures IsRequired(Effect(s, temp), run + [FanControl.Sample(temp)])
  {
    FanControl.SampleTaken(run, temp);
  }

  lemma DoneIsInactive(s: System, run: seq<FanControl.Event>)
    requires IsRequired(s, run)
    ensures s.timer.done ==> !s.timer.active
  {
  }

  lemma NothingRequired()
    ensures IsRequired(INITIAL, [])
  {
  }

  /**
   Without an interrupt between its accesses the control task does what is required of it as one step:
   whenever it is idle, pin, flags and counters are what the interrupts and samples so far require.
   */
  lemma {:induction false} Refines(run: seq<Event>)
    requires Undisturbed(run)
    ensures IsRequired(Finish(Run(run)), Taken(run))
  {
    hide IsRequired, Effect, Accessed, Interrupted, Started;
    if run == [] {
      NothingRequired();
    } else {
      var before := run[..|run| - 1];
      var s := Run(before);
      assert forall i :: 0 <= i <= |before| ==> before[..i] == run[..i];
      Refines(before);
      match run[|run| - 1] {
        case Tick => TickRequired(s, Taken(before));
        case Sample(temp) =>
          if s.pc.Idle? {
            DoneIsInactive(s, Taken(before));
            TaskAlone(s, temp);
            SampleRequired(s, Taken(before), temp);
          } else {
            assert Taken(before) + [] == Taken(before);
          }
        case Access =>
          SameFinish(s);
          assert Taken(before) + [] == Taken(before);
      }
    }
  }

  lemma SameFinish(s: System)
    ensures Finish(Accessed(s)) == Finish(s)
  {
  }

  /** In particular the pin is high exactly when the fan is required to run. */
  lemma PinIsRequired(run: seq<Event>)
    requires Undisturbed(run) && Run(run).pc.Idle?
    ensures Run(run).fanPin == FanControl.FanOn(Taken(run))
  {
    Refines(run);
  }

  // ---------------------------------------------------------------------------
  // With interrupts anywhere
  // ---------------------------------------------------------------------------

  /** The control task, about to take access `k` of the run, is idle for the first time after `m` steps. */
  predicate Spans(run: seq<Event>, k: nat, m: nat) {
    && k < m <= |run| && Run(run[..m]).pc.Idle?
    && forall i :: k < i < m ==> !Run(run[..i]).pc.Idle?
  }

  /** A cold sample that finds the timer inactive leaves the pin low, wherever interrupts fall. */
  lemma ColdSwitchesOff(run: seq<Event>, k: nat, m: nat)
    requires Spans(run, k, m) && run[k] == Access
    requires Run(run[..k]).pc.ColdTest? && !Run(run[..k]).timer.active
    ensures !Run(run[..m]).fanPin
  {
    assert run[..k + 1][..k] == run[..k];
    KeepsFanState(run, k + 1, m, false);
  }

  /** A hot sample leaves it high. */
  lemma HotSwitchesOn(run: seq<Event>, k: nat, m: nat)
    requires Spans(run, k, m) && StartsHot(run, k)
    ensures Run(run[..m]).fanPin
  {
    assert run[..k + 1][..k] == run[..k];
    KeepsFanState(run, k + 1, m, true);
  }

  /** A cold sample that finds the timer active leaves it as the fan state was. */
  lemma ColdWhileActive(run: seq<Event>, k: nat, m: nat)
    requires Spans(run, k, m) && run[k] == Access
    requires Run(run[..k]).pc.ColdTest? && Run(run[..k]).timer.active
    ensures Run(run[..m]).fanPin == Run(run[..k]).fanState
  {
    assert run[..k + 1][..k] == run[..k];
    KeepsFanState(run, k + 1, m, Run(run[..k]).fanState);
  }

  /** A warm sample does not switch the fan off. */
  lemma {:induction false} WarmKeepsOn(run: seq<Event>, k: nat, m: nat)
    requires Spans(run, k, m) && StartsWarm(run, k) && Run(run[..k]).fanState
    ensures Run(run[..m]).fanPin
  {
    assert run[..k + 1][..k] == run[..k];
    KeepsOnFrom(run, k + 1, m);
  }

  /** The fan state is decided: what is left of the control task only clears and drives the pin. */
  predicate Decided(pc: Pc) {
    pc.HotStop? || pc.HotForget? || pc.ColdForget? || pc.Drive? || (Clearing(pc) && pc.next == DriveFan)
  }

  lemma DecidedStep(s: System, e: Event)
    requires Decided(s.pc)
    ensures var r := Step(s, e);
      r.fanState == s.fanState && (Decided(r.pc) || (r.pc.Idle? && r.fanPin == s.fanState))
  {
    hide Interrupted;
  }

  lemma {:induction false} KeepsFanState(run: seq<Event>, k: nat, m: nat, on: bool)
    requires k < m <= |run| && Decided(Run(run[..k]).pc) && Run(run[..k]).fanState == on
    requires Run(run[..m]).pc.Idle? && forall i :: k <= i < m ==> !Run(run[..i]).pc.Idle?
    ensures Run(run[..m]).fanPin == on
    decreases m - k
  {
    hide Step;
    assert run[..k + 1][..k] == run[..k];
    DecidedStep(Run(run[..k]), run[k]);
    if k + 1 < m {
      KeepsFanState(run, k + 1, m, on);
    }
  }

  predicate WarmOrDecided(pc: Pc) {
    pc.WarmTest? || pc.WarmStart? || pc.DoneTest? || pc.Again? || pc.AgainStart? || Clearing(pc) || pc.Drive?
  }

  lemma WarmStep(s: System, e: Event)
    requires WarmOrDecided(s.pc) && s.fanState
    ensures var r := Step(s, e);
      r.fanState && (WarmOrDecided(r.pc) || (r.pc.Idle? && r.fanPin))
  {
    hide Interrupted;
  }

  lemma {:induction false} KeepsOnFrom(run: seq<Event>, k: nat, m: nat)
    requires k < m <= |run| && WarmOrDecided(Run(run[..k]).pc) && Run(run[..k]).fanState
    requires Run(run[..m]).pc.Idle? && forall i :: k <= i < m ==> !Run(run[..i]).pc.Idle?
    ensures Run(run[..m]).fanPin
    decreases m - k
  {
    hide Step;
    assert run[..k + 1][..k] == run[..k];
    WarmStep(Run(run[..k]), run[k]);
    if k + 1 < m {
      KeepsOnFrom(run, k + 1, m);
    }
  }
}
