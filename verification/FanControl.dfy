/**
 The fan: `fan_control_task` decides on filtered temperatures while the 1 ms timer
 interrupt counts down a three-minute cooldown behind its back.

 A run is a sequence of the two kinds of steps.  `ModeAfter` is the requirement,
 a reading of the run alone: no counters and no flags.  The class is the firmware, with
 its three counters and four flags; `Valid()` ties every one of them to the run so far,
 so that each method, in any order, keeps the firmware in step with the requirement.
 */
module FanControl {
  import opened Bytes

  datatype Event = Tick | Sample(temp: real)

  const HIGH := 60.0
  const LOW := 50.0
  /** Three minutes of 1 ms interrupts. */
  const COOLDOWN := 180_000

  predicate Hot(e: Event) {
    e.Sample? && e.temp >= HIGH
  }

  predicate Warm(e: Event) {
    e.Sample? && LOW < e.temp < HIGH
  }

  predicate Cold(e: Event) {
    e.Sample? && e.temp <= LOW
  }

  function Ticks(n: nat): (run: seq<Event>)
    ensures |run| == n && forall i :: 0 <= i < n ==> run[i] == Tick
  {
    seq(n, _ => Tick)
  }

  /** Number of timer interrupts in `run` from position `from` on. */
  function TicksSince(run: seq<Event>, from: nat): nat {
    if |run| <= from then 0
    else
      var n := |run| - 1;
      TicksSince(run[..n], from) + if run[n].Tick? then 1 else 0
  }

  // ---------------------------------------------------------------------------
  // The requirement
  // ---------------------------------------------------------------------------

  /**
   `Heated`: the fan runs because of a hot sample, no cooldown was begun.
   `Cooling(start)`: the fan runs and the cooldown was last begun by the sample at `start`.
   */
  datatype Mode = Off | Heated | Cooling(start: nat)

  predicate Pending(m: Mode, run: seq<Event>) {
    m.Cooling? && TicksSince(run, m.start) < COOLDOWN
  }

  function ModeAfter(run: seq<Event>): (m: Mode)
    ensures m.Cooling? ==> m.start < |run| && Warm(run[m.start])
  {
    if run == [] then Off
    else
      var n := |run| - 1;
      var m := ModeAfter(run[..n]);
      if Hot(run[n]) then Heated
      else if Pending(m, run[..n]) || m.Off? then m
      else if Cold(run[n]) then Off
      else if Warm(run[n]) then Cooling(n)
      else m
  }

  /** What a sample does to the mode and to a cooldown that is counting. */
  lemma SampleTaken(run: seq<Event>, temp: real)
    ensures var m, r := ModeAfter(run), run + [Sample(temp)];
      && ModeAfter(r) == (if temp >= HIGH then Heated
                          else if Pending(m, run) || m.Off? then m
                          else if temp <= LOW then Off
                          else Cooling(|run|))
      && (m.Cooling? ==> TicksSince(r, m.start) == TicksSince(run, m.start))
      && TicksSince(r, |run|) == 0
  {
    var r := run + [Sample(temp)];
    assert r[..|run|] == run;
  }

  /** The pin, the flags of the timer and its counters are what the run requires. */
  predicate AsRequired(run: seq<Event>, fanPin: bool, active: bool, done: bool, ms: nat, sec: nat, min: nat) {
    var mode := ModeAfter(run);
    && fanPin == !mode.Off?
    && active == Pending(mode, run)
    && done == (mode.Cooling? && !Pending(mode, run))
    && ms < 1000 && sec < 60 && min < 3
    && ms + 1000 * sec + 60_000 * min == if active then TicksSince(run, mode.start) else 0
  }

  // ---------------------------------------------------------------------------
  // The firmware
  // ---------------------------------------------------------------------------

  class FanController {
    var timerActive: bool
    var timerDone: bool
    var ms: word
    var sec: byte
    var min: byte
    var fanState: bool
    var highTempSeen: bool
    var fanPin: bool
    ghost var run: seq<Event>

    ghost predicate Valid()
      reads this
    {
      fanPin == fanState == highTempSeen && AsRequired(run, fanPin, timerActive, timerDone, ms, sec, min)
    }

    constructor ()
      ensures Valid() && run == []
    {
      timerActive, timerDone := false, false;
      ms, sec, min := 0, 0, 0;
      fanState, highTempSeen, fanPin := false, false, false;
      run := [];
    }

    /** The fan part of the timer interrupt. */
    method OnTimer()
      requires Valid()
      modifies this
      ensures Valid() && run == old(run) + [Tick]
    {
      if timerActive {
        ms := ms + 1;
        if ms >= 1000 {
          ms := 0;
          sec := sec + 1;
          if sec >= 60 {
            sec := 0;
            min := min + 1;
            if min >= 3 {
              min := 0;
              timerActive := false;
              timerDone := true;
            }
          }
        }
      }
      run := run + [Tick];
      assert run[..|run| - 1] == old(run);
    }

    /** Timer interrupts in a row, during a delay of the main loop. */
    method OnTimers(n: nat)
      requires Valid()
      modifies this
      ensures Valid() && run == old(run) + Ticks(n)
    {
      hide Valid, ModeAfter, TicksSince;
      for i := 0 to n
        invariant Valid() && run == old(run) + Ticks(i)
      {
        OnTimer();
        assert Ticks(i + 1) == Ticks(i) + [Tick];
        assert old(run) + Ticks(i) + [Tick] == old(run) + (Ticks(i) + [Tick]);
      }
    }

    method ControlTask(temp: real)
      requires Valid()
      modifies this
      ensures Valid() && run == old(run) + [Sample(temp)]
    {
      if temp >= HIGH {
        fanState := true;
        highTempSeen := true;
        timerActive := false;
        timerDone := false;
        ms, sec, min := 0, 0, 0;
      } else if temp <= LOW {
        if !timerActive {
          fanState := false;
          highTempSeen := false;
          timerDone := false;
          ms, sec, min := 0, 0, 0;
        }
      } else {
        if highTempSeen && !timerActive {
          fanState := true;
          timerActive := true;
          ms, sec, min := 0, 0, 0;
        }
        if timerDone {
          timerDone := false;
          if temp <= LOW {
            fanState := false;
            highTempSeen := false;
            timerActive := false;
          } else {
            fanState := true;
            timerActive := true;
            ms, sec, min := 0, 0, 0;
          }
        }
      }
      fanPin := fanState;
      SampleTaken(run, temp);
      run := run + [Sample(temp)];
    }
  }

  // ---------------------------------------------------------------------------
  // What the requirement means for the fan
  // ---------------------------------------------------------------------------

  predicate FanOn(run: seq<Event>) {
    !ModeAfter(run).Off?
  }

  /** Step `n` of `run` switches the fan off. */
  predicate SwitchesOff(run: seq<Event>, n: nat)
    requires n < |run|
  {
    FanOn(run[..n]) && !FanOn(run[..n + 1])
  }

  predicate NoneHot(run: seq<Event>, from: nat, to: nat)
    requires to <= |run|
  {
    forall i :: from <= i < to ==> !Hot(run[i])
  }

  lemma {:induction false} TicksGrow(run: seq<Event>, early: nat, late: nat)
    requires early <= late
    ensures TicksSince(run, late) <= TicksSince(run, early)
  {
    if |run| > late {
      TicksGrow(run[..|run| - 1], early, late);
    }
  }

  /**
   As long as the fan has stayed on since the warm sample `p`, without a hot one, a cooldown
   begun at `p` or later is in force, and it is the one of `p` unless that one has run out.
   */
  lemma {:induction false} CooldownInForce(run: seq<Event>, p: nat, n: nat)
    requires p < n <= |run| && Warm(run[p]) && ModeAfter(run[..p]) == Heated
    requires NoneHot(run, p, n) && FanOn(run[..n])
    ensures var m := ModeAfter(run[..n]);
      && m.Cooling? && p <= m.start < n
      && (m.start == p || TicksSince(run[..n], p) >= COOLDOWN)
    decreases n
  {
    assert run[..n][..n - 1] == run[..n - 1];
    if n == p + 1 {
      assert run[..p + 1][..p] == run[..p];
    } else {
      CooldownInForce(run, p, n - 1);
      var m := ModeAfter(run[..n - 1]);
      TicksGrow(run[..n - 1], p, m.start);
    }
  }

  lemma {:induction false} HeatedUntilWarm(run: seq<Event>, h: nat, n: nat)
    requires h < n <= |run| && Hot(run[h]) && FanOn(run[..n])
    requires forall i :: h < i < n ==> !Hot(run[i]) && !Warm(run[i])
    ensures ModeAfter(run[..n]) == Heated
    decreases n
  {
    assert run[..n][..n - 1] == run[..n - 1];
    if h < n - 1 {
      HeatedUntilWarm(run, h, n - 1);
    }
  }

  lemma {:induction false} OnThroughout(run: seq<Event>, i: nat, n: nat)
    requires i <= n <= |run| && NoneHot(run, i, n) && FanOn(run[..n])
    ensures FanOn(run[..i])
    decreases n
  {
    if i < n {
      assert run[..n][..n - 1] == run[..n - 1];
      OnThroughout(run, i, n - 1);
    }
  }

  /** The fan is only ever switched off by a sample at or below 50. */
  lemma OffOnlyOnCold(run: seq<Event>, n: nat)
    requires n < |run| && SwitchesOff(run, n)
    ensures Cold(run[n])
  {
    assert run[..n + 1][..n] == run[..n];
  }

  /** Step by step: 60 degrees switch the fan on, nothing above 50 switches it off, and interrupts change nothing. */
  lemma SwitchesInNumbers(run: seq<Event>, temp: real)
    ensures !FanOn([])
    ensures temp >= 60.0 ==> FanOn(run + [Sample(temp)])
    ensures temp < 60.0 && !FanOn(run) ==> !FanOn(run + [Sample(temp)])
    ensures temp > 50.0 && FanOn(run) ==> FanOn(run + [Sample(temp)])
    ensures FanOn(run + [Tick]) == FanOn(run)
  {
    assert (run + [Sample(temp)])[..|run|] == run;
    assert (run + [Tick])[..|run|] == run;
  }

  /** Without a warm sample since the last hot one there is no cooldown: a cold sample leaves the fan off. */
  lemma ColdAfterHot(run: seq<Event>, h: nat, n: nat)
    requires h < n < |run| && run[h].Sample? && run[h].temp >= 60.0 && run[n].Sample? && run[n].temp <= 50.0
    requires forall i :: h < i < n && run[i].Sample? ==> run[i].temp <= 50.0
    ensures !FanOn(run[..n + 1])
  {
    assert run[..n + 1][..n] == run[..n];
    if FanOn(run[..n]) {
      HeatedUntilWarm(run, h, n);
    }
  }

  /**
   Safety of the cooldown.  Let `h` be the last hot sample before the fan is switched off at
   `n`, and `p` the first warm sample after it.  Then at least three minutes of interrupts
   have passed since `p`, and since the last time the cooldown was restarted.
   */
  lemma CooldownServed(run: seq<Event>, h: nat, p: nat, n: nat)
    requires h < p < n < |run| && SwitchesOff(run, n)
    requires Hot(run[h]) && NoneHot(run, h + 1, n)
    requires Warm(run[p]) && forall i :: h < i < p ==> !Warm(run[i])
    ensures TicksSince(run[..n], p) >= COOLDOWN
    ensures var m := ModeAfter(run[..n]);
      m.Cooling? && p <= m.start && Warm(run[m.start]) && TicksSince(run[..n], m.start) >= COOLDOWN
  {
    assert run[..n + 1][..n] == run[..n];
    OnThroughout(run, p, n);
    HeatedUntilWarm(run, h, p);
    CooldownInForce(run, p, n);
    OffOnlyOnCold(run, n);
  }

  /** Nothing but a hot sample switches the fan on. */
  lemma OnOnlyOnHot(run: seq<Event>, n: nat)
    requires n < |run| && !FanOn(run[..n]) && FanOn(run[..n + 1])
    ensures Hot(run[n])
  {
    assert run[..n + 1][..n] == run[..n];
  }

  /**
   The cooldown ends: once three minutes of interrupts have passed since the cooldown was
   begun at `p`, with neither a hot nor a warm sample since, a cold sample leaves the fan off.
   */
  lemma {:induction false} CooldownEnds(run: seq<Event>, p: nat, n: nat)
    requires p < n < |run| && ModeAfter(run[..p + 1]) == Cooling(p)
    requires forall i :: p < i < n ==> !Hot(run[i]) && !Warm(run[i])
    requires Cold(run[n]) && TicksSince(run[..n], p) >= COOLDOWN
    ensures !FanOn(run[..n + 1])
  {
    assert run[..n + 1][..n] == run[..n];
    ModeKept(run, p, n);
  }

  lemma {:induction false} ModeKept(run: seq<Event>, p: nat, n: nat)
    requires p < n <= |run| && ModeAfter(run[..p + 1]) == Cooling(p)
    requires forall i :: p < i < n ==> !Hot(run[i]) && !Warm(run[i])
    ensures ModeAfter(run[..n]) in {Cooling(p), Off}
    decreases n
  {
    if p + 1 < n {
      assert run[..n][..n - 1] == run[..n - 1];
      ModeKept(run, p, n - 1);
    }
  }

  /** A warm sample begins a cooldown whenever the fan runs and none is counting: the first, and every later one. */
  lemma WarmBegins(run: seq<Event>, p: nat)
    requires p < |run| && FanOn(run[..p]) && run[p].Sample? && 50.0 < run[p].temp < 60.0
    requires !Pending(ModeAfter(run[..p]), run[..p])
    ensures ModeAfter(run[..p + 1]) == Cooling(p)
  {
    assert run[..p + 1][..p] == run[..p];
  }

  /** While it counts, nothing but a hot sample changes it: cold samples wait, and warm ones do not begin it anew. */
  lemma {:induction false} CooldownHolds(run: seq<Event>, p: nat, n: nat)
    requires p < n <= |run| && ModeAfter(run[..p + 1]) == Cooling(p)
    requires forall i :: p < i < n && run[i].Sample? ==> run[i].temp < 60.0
    requires TicksSince(run[..n], p) < 180_000
    ensures ModeAfter(run[..n]) == Cooling(p)
    decreases n
  {
    assert run[..n][..n - 1] == run[..n - 1];
    if p + 1 < n {
      CooldownHolds(run, p, n - 1);
    }
  }

  /**
   Once served, a cooldown is begun anew by the next warm sample: the cold sample at `k` then waits
   for another three minutes.
   */
  lemma ServedCooldownRestarts(run: seq<Event>, p: nat, q: nat, k: nat)
    requires p < q < k < |run| && ModeAfter(run[..p + 1]) == Cooling(p)
    requires forall i :: p < i < q ==> run[i].Tick?
    requires TicksSince(run[..q], p) >= 180_000 && run[q].Sample? && 50.0 < run[q].temp < 60.0
    requires forall i :: q < i < k && run[i].Sample? ==> run[i].temp < 60.0
    requires TicksSince(run[..k], q) < 180_000 && run[k].Sample? && run[k].temp <= 50.0
    ensures FanOn(run[..k + 1])
  {
    OnlyTicks(run, p, q);
    WarmBegins(run, q);
    CooldownHolds(run, q, k);
    assert run[..k + 1][..k] == run[..k];
  }

  lemma {:induction false} OnlyTicks(run: seq<Event>, p: nat, n: nat)
    requires p < n <= |run| && ModeAfter(run[..p + 1]) == Cooling(p) && forall i :: p < i < n ==> run[i].Tick?
    ensures ModeAfter(run[..n]) == Cooling(p)
    decreases n
  {
    if p + 1 < n {
      assert run[..n][..n - 1] == run[..n - 1];
      OnlyTicks(run, p, n - 1);
    }
  }
}
