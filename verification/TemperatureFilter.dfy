/**
 `get_filtered_temperature`: a sample far from the held temperature is believed only once
 it has been confirmed by two more; until then the held temperature is reported.
 Temperatures are reals.
 */
module TemperatureFilter {
  import opened Bytes

  const SPIKE_DELTA := 2.0
  const CONFIRM_COUNT := 3

  predicate Near(a: real, b: real) {
    -SPIKE_DELTA <= a - b <= SPIKE_DELTA
  }

  /** `held` is the temperature reported last; `suspect` and `count` describe the outliers seen since. */
  datatype State = State(initialized: bool, held: real, suspect: real, count: byte)

  const INITIAL := State(false, 0.0, 0.0, 0)

  predicate Believed(s: State, temp: real) {
    || !s.initialized
    || Near(temp, s.held)
    || (s.count == CONFIRM_COUNT - 1 && Near(temp, s.suspect))
  }

  predicate Confirms(s: State, temp: real) {
    s.count == 0 || Near(temp, s.suspect)
  }

  /** The state after one call; the call reports its `held`. */
  function After(s: State, temp: real): State
    requires s.count < CONFIRM_COUNT
  {
    if !s.initialized then s.(initialized := true, held := temp)
    else if Near(temp, s.held) then s.(held := temp, count := 0)
    else if Believed(s, temp) then s.(held := temp, suspect := temp, count := 0)
    else if Confirms(s, temp) then s.(suspect := temp, count := s.count + 1)
    else s.(count := 0)
  }

  class Filter {
    var lastValid: real
    var suspectValue: real
    var suspectCnt: byte
    var initialized: bool

    function Abs(): State
      reads this
    {
      State(initialized, lastValid, suspectValue, suspectCnt)
    }

    ghost predicate Valid()
      reads this
    {
      suspectCnt < CONFIRM_COUNT
    }

    constructor ()
      ensures Valid() && Abs() == INITIAL
    {
      lastValid, suspectValue, suspectCnt, initialized := 0.0, 0.0, 0, false;
    }

    method Next(temp: real) returns (out: real)
      requires Valid()
      modifies this
      ensures Valid() && Abs() == After(old(Abs()), temp) && out == Abs().held
    {
      if !initialized {
        lastValid := temp;
        initialized := true;
        return temp;
      }
      if Near(temp, lastValid) {
        lastValid := temp;
        suspectCnt := 0;
        return temp;
      }
      if suspectCnt == 0 || Near(temp, suspectValue) {
        suspectValue := temp;
        suspectCnt := suspectCnt + 1;
        if suspectCnt >= CONFIRM_COUNT {
          lastValid := suspectValue;
          suspectCnt := 0;
          return lastValid;
        }
      } else {
        suspectCnt := 0;
      }
      return lastValid;
    }
  }

  // ---------------------------------------------------------------------------
  // Runs
  // ---------------------------------------------------------------------------

  function Run(s: State, samples: seq<real>): (r: State)
    requires s.count < CONFIRM_COUNT
    ensures r.count < CONFIRM_COUNT
    ensures samples != [] || s.initialized ==> r.initialized
  {
    if samples == [] then s
    else After(Run(s, samples[..|samples| - 1]), samples[|samples| - 1])
  }

  /** What the filter reports after `samples`, from power-up. */
  function Reported(samples: seq<real>): real {
    Run(INITIAL, samples).held
  }

  /** The last `k` of `samples` are far from `held` and each is near the one before. */
  ghost predicate Outliers(samples: seq<real>, k: nat, held: real)
  {
    && k <= |samples|
    && (forall i :: |samples| - k <= i < |samples| ==> !Near(samples[i], held))
    && (forall i :: |samples| - k < i < |samples| ==> Near(samples[i], samples[i - 1]))
  }

  /** The counter counts confirmed outliers, all of them after the held temperature was last set. */
  lemma {:induction false} CounterIsEvidence(samples: seq<real>)
    ensures var s := Run(INITIAL, samples);
      && Outliers(samples, s.count, s.held)
      && (s.count > 0 ==> s.suspect == samples[|samples| - 1])
      && (samples == [] ==> !s.initialized)
  {
    if samples != [] {
      CounterIsEvidence(samples[..|samples| - 1]);
    }
  }

  /**
   The report jumps by more than 2 degrees only on the third of three outliers in a row,
   each confirming the one before.
   */
  lemma JumpNeedsThreeOutliers(samples: seq<real>)
    requires |samples| >= 2
    requires !Near(Reported(samples), Reported(samples[..|samples| - 1]))
    ensures |samples| >= 4 && Outliers(samples, CONFIRM_COUNT, Reported(samples[..|samples| - 1]))
    ensures Reported(samples) == samples[|samples| - 1]
  {
    var before := samples[..|samples| - 1];
    CounterIsEvidence(before);
    FirstSampleHeld(before);
  }

  function Distance(a: real, b: real): real {
    if a >= b then a - b else b - a
  }

  /**
   The same in plain numbers, upwards and downwards: if the report moves by more than 2.0, the last
   three samples each lie more than 2.0 from the old report and within 2.0 of the one before.
   */
  lemma JumpInNumbers(samples: seq<real>)
    requires |samples| >= 2
    requires Distance(Reported(samples), Reported(samples[..|samples| - 1])) > 2.0
    ensures var n, was := |samples|, Reported(samples[..|samples| - 1]);
      && n >= 4 && Reported(samples) == samples[n - 1]
      && Distance(samples[n - 1], was) > 2.0 && Distance(samples[n - 2], was) > 2.0
      && Distance(samples[n - 3], was) > 2.0
      && Distance(samples[n - 1], samples[n - 2]) <= 2.0 && Distance(samples[n - 2], samples[n - 3]) <= 2.0
  {
    JumpNeedsThreeOutliers(samples);
  }

  /**
   One sample: the first is reported, one within 2.0 of the report is, and one more than 2.0 above or
   below it is not unless two outliers came just before.
   */
  lemma ReportInNumbers(samples: seq<real>, temp: real)
    ensures samples == [] ==> Reported(samples + [temp]) == temp
    ensures samples != [] && Distance(temp, Reported(samples)) <= 2.0 ==> Reported(samples + [temp]) == temp
    ensures samples != [] && Distance(temp, Reported(samples)) > 2.0 && Run(INITIAL, samples).count < 2 ==>
      Reported(samples + [temp]) == Reported(samples)
  {
    OneMoreSample(samples, temp);
    assert samples == [] ==> Run(INITIAL, samples) == INITIAL;
  }

  /** Three samples that agree, far above or far below the report, move it; from 60 to 25 degrees it takes all three. */
  lemma ThreeMoveTheReport(samples: seq<real>, a: real, b: real, c: real)
    requires samples != [] && Run(INITIAL, samples).count == 0
    requires var r := Reported(samples); Distance(a, r) > 2.0 && Distance(b, r) > 2.0 && Distance(c, r) > 2.0
    requires Distance(b, a) <= 2.0 && Distance(c, b) <= 2.0
    ensures Reported(samples + [a]) == Reported(samples + [a, b]) == Reported(samples)
    ensures Reported(samples + [a, b, c]) == c
  {
    OneMoreSample(samples, a);
    OneMoreSample(samples + [a], b);
    OneMoreSample(samples + [a, b], c);
    assert samples + [a] + [b] == samples + [a, b];
    assert samples + [a, b] + [c] == samples + [a, b, c];
  }

  lemma OneMoreSample(samples: seq<real>, temp: real)
    ensures Run(INITIAL, samples + [temp]) == After(Run(INITIAL, samples), temp)
  {
    assert (samples + [temp])[..|samples|] == samples;
  }

  /** The very first sample is held at once, so it is never one of the outliers. */
  lemma {:induction false} FirstSampleHeld(samples: seq<real>)
    requires samples != []
    ensures Run(INITIAL, samples).count < |samples|
  {
    if |samples| > 1 {
      FirstSampleHeld(samples[..|samples| - 1]);
    } else {
      assert samples[..0] == [];
    }
  }

  /**
   Three outliers in a row are not enough by themselves: an outlier that contradicts the one
   before it clears the count without being counted itself.  So with any three temperatures that
   are pairwise far apart, three samples of the last do not move the report.
   */
  lemma ThreeOutliersMayNotSuffice(a: real, b: real, c: real)
    requires !Near(b, a) && !Near(c, a) && !Near(c, b)
    ensures var samples := [a, b, c, c, c];
      && Outliers(samples, CONFIRM_COUNT, Reported(samples[..4]))
      && Reported(samples) == Reported(samples[..4]) == a
  {
    var samples := [a, b, c, c, c];
    assert samples[..4] == [a, b, c, c];
    assert samples[..4][..3] == [a, b, c];
    assert samples[..4][..3][..2] == [a, b];
    assert samples[..4][..3][..2][..1] == [a];
    assert samples[..4][..3][..2][..1][..0] == [];
    assert Run(INITIAL, [a]) == State(true, a, 0.0, 0);
    assert Run(INITIAL, [a, b]) == State(true, a, b, 1);
    assert Run(INITIAL, [a, b, c]) == State(true, a, b, 0);
    assert Run(INITIAL, [a, b, c, c]) == State(true, a, c, 1);
  }

  /** Within the range of the thermistor table: a fan-relevant rise from 25 to 65 degrees is not yet reported. */
  lemma RiseNotYetReported()
    ensures var samples := [25.0, 45.0, 65.0, 65.0, 65.0];
      Outliers(samples, CONFIRM_COUNT, 25.0) && Reported(samples) == 25.0
  {
    ThreeOutliersMayNotSuffice(25.0, 45.0, 65.0);
  }

  /** The exact condition: the report follows a sample iff it is near the report or confirms two outliers before it. */
  lemma FollowsExactlyWhenBelieved(samples: seq<real>, temp: real)
    requires samples != []
    ensures Reported(samples + [temp]) == (if Believed(Run(INITIAL, samples), temp) then temp else Reported(samples))
    ensures Believed(Run(INITIAL, samples), temp) && !Near(temp, Reported(samples)) <==>
      Run(INITIAL, samples).count == 2 && Outliers(samples + [temp], 3, Reported(samples))
  {
    assert (samples + [temp])[..|samples|] == samples;
    CounterIsEvidence(samples);
    FirstSampleHeld(samples);
  }

  ghost predicate AllNear(samples: seq<real>) {
    forall i, j :: 0 <= i < |samples| && 0 <= j < |samples| ==> Near(samples[i], samples[j])
  }

  /**
   From any state, once the samples agree with one another the report is the latest sample,
   from the fourth call on.
   */
  lemma {:induction false} FollowsAfterFourCalls(s: State, samples: seq<real>)
    requires s.count < CONFIRM_COUNT && AllNear(samples) && |samples| >= 4
    ensures Run(s, samples).held == samples[|samples| - 1]
  {
    var n := |samples| - 1;
    if |samples| > 4 {
      FollowsAfterFourCalls(s, samples[..n]);
    } else {
      FirstFour(s, samples[0], samples[1], samples[2], samples[3]);
      assert samples[..3][..2] == samples[..2] && samples[..2][..1] == samples[..1] && samples[..1][..0] == [];
      assert Run(s, samples[..1]) == After(s, samples[0]);
      assert Run(s, samples[..2]) == After(Run(s, samples[..1]), samples[1]);
      assert Run(s, samples[..3]) == After(Run(s, samples[..2]), samples[2]);
    }
  }

  lemma FirstFour(s: State, a: real, b: real, c: real, d: real)
    requires s.count < CONFIRM_COUNT && AllNear([a, b, c, d])
    ensures After(After(After(After(s, a), b), c), d).held == d
  {
    var t := [a, b, c, d];
    assert Near(t[1], t[0]) && Near(t[2], t[1]) && Near(t[3], t[2]);
    assert Near(t[2], t[0]) && Near(t[3], t[1]) && Near(t[3], t[0]);
  }

  /** The report is always one of the samples. */
  lemma {:induction false} ReportsASample(samples: seq<real>)
    requires samples != []
    ensures Reported(samples) in samples
  {
    var n := |samples| - 1;
    if n > 0 {
      ReportsASample(samples[..n]);
      var s := Run(INITIAL, samples[..n]);
      var i :| 0 <= i < n && samples[..n][i] == Reported(samples[..n]);
      assert Reported(samples) == samples[i] || Reported(samples) == samples[n];
    } else {
      assert Run(INITIAL, samples[..n]) == INITIAL;
    }
  }

  /**
   A single spike is invisible: a sample far from the report, between samples near it, leaves
   the report and everything reported afterwards as if it had not been there.
   */
  lemma SpikeIsInvisible(before: seq<real>, spike: real, next: real, rest: seq<real>)
    requires before != [] && Run(INITIAL, before).count == 0
    requires !Near(spike, Reported(before)) && Near(next, Reported(before))
    ensures Reported(before + [spike]) == Reported(before)
    ensures Reported(before + [spike, next] + rest) == Reported(before + [next] + rest)
  {
    var s := Run(INITIAL, before);
    assert (before + [spike])[..|before|] == before;
    RunFrom(INITIAL, before, [spike, next] + rest);
    RunFrom(INITIAL, before, [next] + rest);
    assert before + [spike, next] + rest == before + ([spike, next] + rest);
    assert before + [next] + rest == before + ([next] + rest);
    RunFrom(s, [spike, next], rest);
    RunFrom(s, [next], rest);
    assert [spike, next][..1] == [spike] && [spike][..0] == [] && [next][..0] == [];
    StaleSuspectIsHarmless(Run(s, [spike, next]), Run(s, [next]), rest);
  }

  lemma {:induction false} RunFrom(s: State, first: seq<real>, second: seq<real>)
    requires s.count < CONFIRM_COUNT
    ensures Run(s, first + second) == Run(Run(s, first), second)
  {
    if second == [] {
      assert first + second == first;
    } else {
      var n := |second| - 1;
      RunFrom(s, first, second[..n]);
      assert (first + second)[..|first + second| - 1] == first + second[..n];
    }
  }

  ghost predicate Alike(a: State, b: State) {
    && a.count == b.count < CONFIRM_COUNT
    && a.initialized == b.initialized
    && a.held == b.held
    && (a.count == 0 || a.suspect == b.suspect)
  }

  lemma {:induction false} StaleSuspectIsHarmless(a: State, b: State, samples: seq<real>)
    requires Alike(a, b)
    ensures Alike(Run(a, samples), Run(b, samples))
  {
    if samples != [] {
      StaleSuspectIsHarmless(a, b, samples[..|samples| - 1]);
    }
  }
}
