/**
 The reset button: `timer_100ms_dsr` samples it every 100 ms, debounces its release and
 decides between a soft reboot and a factory reset.

 The requirement reads the whole sequence of samples so far; the firmware has three
 variables, with their widths.
 */
module ResetButton {
  import opened Bytes

  const DEBOUNCE := 5
  const REBOOT_TIME := 10

  /** One sample is true while the button is pressed. */
  type Samples = seq<bool>

  // ---------------------------------------------------------------------------
  // The requirement
  // ---------------------------------------------------------------------------

  /** Length of the run of released samples at the end. */
  function Released(s: Samples): (n: nat)
    ensures n <= |s|
  {
    if s == [] || s[|s| - 1] then 0 else Released(s[..|s| - 1]) + 1
  }

  /** No press is in progress: the button was never pressed, or has been released for six samples. */
  predicate Idle(s: Samples) {
    Released(s) == |s| || Released(s) > DEBOUNCE
  }

  /** The sample at which the press in progress began. */
  function Began(s: Samples): (a: nat)
    requires !Idle(s)
    ensures a < |s|
  {
    if Idle(s[..|s| - 1]) then |s| - 1 else Began(s[..|s| - 1])
  }

  /**
   The soft reboot is due with the sample `x` after `s`: it is the sixth released one in a row,
   and ends a press that took less than a second up to the first of the six.
   */
  predicate SoftRebootDue(s: Samples, x: bool) {
    !Idle(s) && Released(s + [x]) == DEBOUNCE + 1 && |s| - DEBOUNCE - Began(s) < REBOOT_TIME
  }

  /** The factory reset is due with the sample after `s`: its last is pressed, in a press longer than the reset time. */
  predicate FactoryResetDue(s: Samples, resetTime: nat) {
    !Idle(s) && s[|s| - 1] && |s| - Began(s) > resetTime
  }

  /** `Released` is the length of the longest released suffix. */
  lemma {:induction false} ReleasedIsTheLastRun(s: Samples, n: nat)
    requires n <= |s|
    ensures Released(s) == n <==> (forall i :: |s| - n <= i < |s| ==> !s[i]) && (n < |s| ==> s[|s| - n - 1])
  {
    if s == [] || s[|s| - 1] {
    } else if n > 0 {
      var u := s[..|s| - 1];
      ReleasedIsTheLastRun(u, n - 1);
      assert forall i :: 0 <= i < |u| ==> u[i] == s[i];
    }
  }

  /**
   A press begins with the one pressed sample that follows an idle time and since which there
   has been none.
   */
  lemma {:induction false} PressBegan(s: Samples, a: nat)
    requires !Idle(s) && a < |s|
    ensures a == Began(s) <==> s[a] && Idle(s[..a]) && forall m :: a < m <= |s| ==> !Idle(s[..m])
  {
    var n := |s| - 1;
    assert s[..|s|] == s;
    if !Idle(s[..n]) {
      if a < n {
        PressBegan(s[..n], a);
        assert s[..n][..a] == s[..a];
        assert forall m :: a < m <= n ==> s[..n][..m] == s[..m];
      }
    }
  }

  /** Releasing the button for a while does not change when the press began. */
  lemma {:induction false} BeganBeforeRelease(s: Samples)
    requires !Idle(s)
    ensures Released(s) < |s| && !Idle(s[..|s| - Released(s)])
    ensures Began(s) == Began(s[..|s| - Released(s)])
  {
    if s[|s| - 1] {
      assert s[..|s|] == s;
    } else {
      var u := s[..|s| - 1];
      BeganBeforeRelease(u);
      assert u[..|u| - Released(u)] == s[..|s| - Released(s)];
    }
  }

  /**
   The soft reboot is due exactly with the last of six released samples, preceded by a pressed
   one, that end a press begun less than `REBOOT_TIME` ticks before the first of the six.
   */
  lemma SoftRebootMeans(s: Samples, x: bool)
    ensures SoftRebootDue(s, x) <==>
      && !x && |s| > DEBOUNCE && s[|s| - DEBOUNCE - 1]
      && (forall i :: |s| - DEBOUNCE <= i < |s| ==> !s[i])
      && |s| - DEBOUNCE - Began(s[..|s| - DEBOUNCE]) < REBOOT_TIME
  {
    assert (s + [x])[..|s|] == s;
    if |s| > DEBOUNCE {
      ReleasedIsTheLastRun(s, DEBOUNCE);
      if Released(s) == DEBOUNCE {
        BeganBeforeRelease(s);
      }
    }
  }

  /** The button held for `k` samples and then released for `r`. */
  function Held(k: nat, r: nat): (s: Samples)
    ensures |s| == k + r
  {
    seq(k + r, i => i < k)
  }

  lemma {:induction false} HeldCounts(k: nat, r: nat)
    requires k > 0
    ensures Released(Held(k, r)) == r && (r <= 5 ==> !Idle(Held(k, r)) && Began(Held(k, r)) == 0)
    decreases k + r
  {
    var s := Held(k, r);
    if r > 0 {
      assert s[..k + r - 1] == Held(k, r - 1);
      HeldCounts(k, r - 1);
    } else if k > 1 {
      assert s[..k - 1] == Held(k - 1, 0);
      HeldCounts(k - 1, 0);
    }
  }

  /**
   A plain press, in ticks of 100 ms: the soft reboot comes with the sixth released sample if it was
   held for less than ten, and the factory reset while it is held for longer than the reset time.
   */
  lemma PlainPress(k: nat, r: nat, resetTime: nat)
    requires k > 0 && r <= 5
    ensures SoftRebootDue(Held(k, r), false) <==> r == 5 && k < 10
    ensures FactoryResetDue(Held(k, r), resetTime) <==> r == 0 && k > resetTime
  {
    HeldCounts(k, r);
    assert Held(k, r) + [false] == Held(k, r + 1);
    HeldCounts(k, r + 1);
  }

  // ---------------------------------------------------------------------------
  // The firmware
  // ---------------------------------------------------------------------------

  /** The reset time of the shipped configuration, 3 s. */
  const GPIO_RESET_TIME: word := 30

  datatype GpioState = Normal | Pressed | Releasing

  datatype Action = Nothing | SoftReboot | FactoryReset

  datatype Vars = Vars(state: GpioState, pressedTime: word, debounceTime: byte)

  /** 16-bit increment. */
  function Inc(w: word): word {
    (w + 1) % 0x1_0000
  }

  /** The variables after one tick, with the wrap-around of their widths. */
  function Next(v: Vars, pressed: bool): Vars {
    match v.state
    case Normal => if pressed then v.(state := Pressed, pressedTime := 0) else v
    case Pressed =>
      var w := v.(pressedTime := Inc(v.pressedTime));
      if pressed then w else w.(state := Releasing, debounceTime := 0)
    case Releasing =>
      var w := v.(pressedTime := Inc(v.pressedTime));
      if pressed then w.(state := Pressed)
      else if v.debounceTime + 1 >= DEBOUNCE then
        Vars(Normal, (w.pressedTime as int - DEBOUNCE) % 0x1_0000, (v.debounceTime + 1) % 0x100)
      else w.(debounceTime := v.debounceTime + 1)
  }

  function ActionOf(v: Vars, pressed: bool, resetTime: word): Action {
    match v.state
    case Normal => Nothing
    case Pressed => if Inc(v.pressedTime) > resetTime then FactoryReset else Nothing
    case Releasing =>
      if !pressed && v.debounceTime + 1 >= DEBOUNCE && (Inc(v.pressedTime) as int - DEBOUNCE) % 0x1_0000 < REBOOT_TIME
      then SoftReboot else Nothing
  }

  function VarsAfter(s: Samples): Vars {
    if s == [] then Vars(Normal, 0, 0) else Next(VarsAfter(s[..|s| - 1]), s[|s| - 1])
  }

  class Button {
    const resetTime: word
    var gpioState: GpioState
    var pressedTime: word
    var debounceTime: byte
    ghost var samples: Samples

    ghost predicate Valid()
      reads this
    {
      Vars(gpioState, pressedTime, debounceTime) == VarsAfter(samples)
    }

    constructor (resetTime: word)
      ensures Valid() && samples == [] && this.resetTime == resetTime
    {
      this.resetTime := resetTime;
      gpioState, pressedTime, debounceTime := Normal, 0, 0;
      samples := [];
    }

    /**
     One 100 ms tick.  As long as no factory reset was due, which restarts the device, both
     actions are taken exactly when they are due; up to the greatest safe reset time, that is.
     */
    method Tick(pressed: bool) returns (action: Action)
      requires Valid()
      modifies this
      ensures Valid() && samples == old(samples) + [pressed]
      ensures action == ActionOf(VarsAfter(old(samples)), pressed, resetTime)
      ensures NoReset(old(samples), resetTime) && resetTime <= GREATEST_SAFE ==>
        && (action == SoftReboot <==> SoftRebootDue(old(samples), pressed))
        && (action == FactoryReset <==> FactoryResetDue(old(samples), resetTime))
    {
      if NoReset(samples, resetTime) && resetTime <= GREATEST_SAFE {
        ActsWhenDue(samples, pressed, resetTime);
      }
      action := Nothing;
      match gpioState {
        case Normal =>
          if pressed {
            gpioState := Pressed;
            pressedTime := 0;
          }
        case Pressed =>
          pressedTime := Inc(pressedTime);
          if !pressed {
            gpioState := Releasing;
            debounceTime := 0;
          }
          if pressedTime > resetTime {
            action := FactoryReset;
          }
        case Releasing =>
          pressedTime := Inc(pressedTime);
          if !pressed {
            debounceTime := (debounceTime + 1) % 0x100;
            if debounceTime >= DEBOUNCE {
              gpioState := Normal;
              pressedTime := (pressedTime as int - DEBOUNCE) % 0x1_0000;
              if pressedTime < REBOOT_TIME {
                action := SoftReboot;
              }
            }
          } else {
            gpioState := Pressed;
          }
      }
      samples := samples + [pressed];
      assert samples[..|samples| - 1] == old(samples);
    }
  }

  // ---------------------------------------------------------------------------
  // When the firmware meets the requirement
  // ---------------------------------------------------------------------------

  /** No factory reset has been due with any sample of `s`. */
  predicate NoReset(s: Samples, resetTime: word) {
    s == [] || (NoReset(s[..|s| - 1], resetTime) && !FactoryResetDue(s[..|s| - 1], resetTime))
  }

  predicate ActsAsDue(s: Samples, x: bool, resetTime: word) {
    var action := ActionOf(VarsAfter(s), x, resetTime);
    && (action == SoftReboot <==> SoftRebootDue(s, x))
    && (action == FactoryReset <==> FactoryResetDue(s, resetTime))
  }

  /** The greatest reset time at which the 16-bit counter of a press cannot wrap. */
  const GREATEST_SAFE: word := 0xFFFF - 6

  /** The variables against the samples: the counter is the age of the press, modulo 2^16. */
  ghost predicate Tracks(v: Vars, s: Samples) {
    && (v.state == Normal <==> Idle(s))
    && (v.state == Pressed <==> !Idle(s) && Released(s) == 0)
    && (v.state == Releasing ==> Released(s) == v.debounceTime + 1 <= DEBOUNCE)
    && (v.state != Normal ==> v.pressedTime == (|s| - 1 - Began(s)) % 0x1_0000)
  }

  lemma IncWraps(w: word, n: nat)
    requires w == n % 0x1_0000
    ensures Inc(w) == (n + 1) % 0x1_0000
  {
  }

  lemma {:induction false} VarsTrack(s: Samples)
    ensures Tracks(VarsAfter(s), s)
  {
    if s != [] {
      var u := s[..|s| - 1];
      VarsTrack(u);
      if !Idle(u) {
        IncWraps(VarsAfter(u).pressedTime, |u| - 1 - Began(u));
      }
    }
  }

  /** Without a factory reset a press grows at most five ticks over the reset time. */
  lemma {:induction false} PressIsBounded(s: Samples, resetTime: word)
    requires NoReset(s, resetTime) && !Idle(s)
    ensures |s| - 1 - Began(s) <= resetTime + if Released(s) == 0 then DEBOUNCE else Released(s) - 1
  {
    var u := s[..|s| - 1];
    if !Idle(u) {
      PressIsBounded(u, resetTime);
    }
  }

  /** Up to the greatest safe reset time the counter is the age of the press, and stays so with the next tick. */
  lemma CounterIsAge(s: Samples, resetTime: word)
    requires NoReset(s, resetTime) && resetTime <= GREATEST_SAFE && !Idle(s)
    ensures var v, age := VarsAfter(s), |s| - Began(s);
      Released(s) < age && v.pressedTime == age - 1 && Inc(v.pressedTime) == age
  {
    VarsTrack(s);
    PressIsBounded(s, resetTime);
    BeganBeforeRelease(s);
  }

  lemma ActsWhenDue(s: Samples, x: bool, resetTime: word)
    requires NoReset(s, resetTime) && resetTime <= GREATEST_SAFE
    ensures ActsAsDue(s, x, resetTime)
  {
    VarsTrack(s);
    if !Idle(s) {
      CounterIsAge(s, resetTime);
      var age := |s| - Began(s);
      assert Released(s + [x]) == if x then 0 else Released(s) + 1 by {
        assert (s + [x])[..|s|] == s;
      }
      if Released(s) == 0 {
        assert s[|s| - 1];
      } else {
        assert !s[|s| - 1];
      }
    }
  }

  /** A press held for the reset time, let go for five ticks and pressed again. */
  function BouncingPress(resetTime: word): Samples {
    seq(resetTime + 6, i => i < resetTime || i == resetTime + DEBOUNCE)
  }

  lemma BouncesKeepThePress(resetTime: word, m: nat)
    requires 0 < m <= resetTime + 6 && resetTime > 0
    ensures var t := BouncingPress(resetTime)[..m];
      !Idle(t) && Began(t) == 0 && (t[m - 1] <==> m <= resetTime || m == resetTime + 6)
    decreases m
  {
    var t := BouncingPress(resetTime)[..m];
    ReleasedIsTheLastRun(t, if m <= resetTime || m == resetTime + 6 then 0 else m - resetTime);
    assert t[..m - 1] == BouncingPress(resetTime)[..m - 1];
    if m > 1 {
      BouncesKeepThePress(resetTime, m - 1);
    }
  }

  lemma {:induction false} NoResetWhileBouncing(resetTime: word, m: nat)
    requires m <= resetTime + 6 && resetTime > 0
    ensures NoReset(BouncingPress(resetTime)[..m], resetTime)
  {
    if m > 0 {
      var t := BouncingPress(resetTime)[..m];
      assert t[..m - 1] == BouncingPress(resetTime)[..m - 1];
      NoResetWhileBouncing(resetTime, m - 1);
      if m > 1 {
        BouncesKeepThePress(resetTime, m - 1);
      }
    }
  }

  /** Above the greatest safe reset time there is a run whose factory reset is missed: the counter has wrapped. */
  lemma ResetMissed(resetTime: word, x: bool)
    requires resetTime > GREATEST_SAFE
    ensures var s := BouncingPress(resetTime);
      NoReset(s, resetTime) && FactoryResetDue(s, resetTime) && ActionOf(VarsAfter(s), x, resetTime) != FactoryReset
  {
    var s := BouncingPress(resetTime);
    assert s[..|s|] == s;
    NoResetWhileBouncing(resetTime, |s|);
    BouncesKeepThePress(resetTime, |s|);
    VarsTrack(s);
    ReleasedIsTheLastRun(s, 0);
  }

  /** The firmware acts exactly as due in all runs exactly for the reset times up to 65529; the shipped one is 30. */
  lemma SafeExactlyUpTo(resetTime: word)
    ensures (forall s, x :: NoReset(s, resetTime) ==> ActsAsDue(s, x, resetTime)) <==> resetTime <= GREATEST_SAFE
    ensures GPIO_RESET_TIME <= GREATEST_SAFE
  {
    if resetTime <= GREATEST_SAFE {
      forall s, x | NoReset(s, resetTime) ensures ActsAsDue(s, x, resetTime) {
        ActsWhenDue(s, x, resetTime);
      }
    } else {
      ResetMissed(resetTime, true);
      assert !ActsAsDue(BouncingPress(resetTime), true, resetTime);
    }
  }
}
