/**
 The voltage rails: the boot switch on the stored voltage, the voltage command and the
 battery display.  Every single write to an output pin is recorded, in the order in which
 the firmware makes them, because what matters is that no write on the way to a new
 voltage selects two rails or selects one into an enabled output.
 */
module PowerRails {
  import opened Bytes

  // ---------------------------------------------------------------------------
  // Outputs
  // ---------------------------------------------------------------------------

  /** PA0 high switches the output off.  PA4 selects the 30 V rail; no rail selected means 24 V. */
  datatype Pins = Pins(outputOff: bool, rail30: bool, rail48: bool, rail56: bool)

  datatype Write =
    | OutputOff(high: bool)
    | Rail30(high: bool)
    | Rail48(high: bool)
    | Rail56(high: bool)
    | PortA01  // PORTA = 0x01
    | PortF00  // PORTF = 0x00

  function Written(p: Pins, w: Write): Pins {
    match w
    case OutputOff(high) => p.(outputOff := high)
    case Rail30(high) => p.(rail30 := high)
    case Rail48(high) => p.(rail48 := high)
    case Rail56(high) => p.(rail56 := high)
    case PortA01 => p.(outputOff := true, rail30 := false)
    case PortF00 => p.(rail48 := false, rail56 := false)
  }

  predicate AtMostOneRail(p: Pins) {
    !(p.rail30 && p.rail48) && !(p.rail30 && p.rail56) && !(p.rail48 && p.rail56)
  }

  predicate Raises(before: Pins, after: Pins) {
    || (after.rail30 && !before.rail30)
    || (after.rail48 && !before.rail48)
    || (after.rail56 && !before.rail56)
  }

  predicate SafeWrite(before: Pins, after: Pins) {
    AtMostOneRail(after) && (Raises(before, after) ==> before.outputOff && after.outputOff)
  }

  ghost predicate SafeLog(log: seq<Pins>) {
    && (forall i :: 0 <= i < |log| ==> AtMostOneRail(log[i]))
    && (forall i :: 0 < i < |log| ==> SafeWrite(log[i - 1], log[i]))
  }

  /** Write by write: never two rails, and none is selected unless the output is switched off before and after. */
  lemma SafeLogMeans(log: seq<Pins>, i: nat)
    requires SafeLog(log) && i < |log|
    ensures |set rail | rail in {30, 48, 56} && Selects(log[i], rail)| <= 1
    ensures i > 0 ==> forall rail :: rail in {30, 48, 56} && Selects(log[i], rail) && !Selects(log[i - 1], rail) ==>
      log[i - 1].outputOff && log[i].outputOff
  {
    var rails := set rail | rail in {30, 48, 56} && Selects(log[i], rail);
    assert AtMostOneRail(log[i]);
    if log[i].rail30 {
      assert rails == {30};
    } else if log[i].rail48 {
      assert rails == {48};
    } else if log[i].rail56 {
      assert rails == {56};
    } else {
      assert rails == {};
    }
    if i > 0 {
      assert SafeWrite(log[i - 1], log[i]);
    }
  }

  /** How many writes took a selected rail away under an enabled output. */
  ghost function Cuts(log: seq<Pins>): nat {
    if |log| < 2 then 0
    else
      var n := |log| - 1;
      Cuts(log[..n]) + if !log[n - 1].outputOff && Raises(log[n], log[n - 1]) then 1 else 0
  }

  lemma CutsGoOn(log: seq<Pins>, p: Pins)
    requires log != []
    ensures var last := log[|log| - 1];
      Cuts(log + [p]) == Cuts(log) + if !last.outputOff && Raises(p, last) then 1 else 0
  {
    assert (log + [p])[..|log|] == log;
  }

  ghost predicate IsCut(log: seq<Pins>, i: nat) {
    && 0 < i < |log| && !log[i - 1].outputOff
    && exists rail :: rail in {30, 48, 56} && Selects(log[i - 1], rail) && !Selects(log[i], rail)
  }

  lemma CutOfRail(log: seq<Pins>, i: nat)
    requires 0 < i < |log|
    ensures IsCut(log, i) <==> !log[i - 1].outputOff && Raises(log[i], log[i - 1])
  {
    if !log[i - 1].outputOff && Raises(log[i], log[i - 1]) {
      var rail := if log[i - 1].rail30 && !log[i].rail30 then 30
                  else if log[i - 1].rail48 && !log[i].rail48 then 48 else 56;
      assert Selects(log[i - 1], rail) && !Selects(log[i], rail);
    }
  }

  /** The count grows over a stretch of writes iff one of them switches a selected rail off under an enabled output. */
  lemma {:induction false} CutsMean(log: seq<Pins>, k: nat)
    requires 0 < k <= |log|
    ensures Cuts(log[..k]) <= Cuts(log)
    ensures Cuts(log[..k]) < Cuts(log) <==> exists i :: k <= i < |log| && IsCut(log, i)
    decreases |log|
  {
    hide IsCut;
    if k == |log| {
      assert log[..k] == log;
    } else {
      var n := |log| - 1;
      CutsMean(log[..n], k);
      assert log[..n][..k] == log[..k];
      CutOfRail(log, n);
      forall i | k <= i < n ensures IsCut(log[..n], i) <==> IsCut(log, i) {
        CutOfRail(log, i);
        CutOfRail(log[..n], i);
      }
    }
  }

  predicate Selects(p: Pins, rail: int) {
    if rail == 30 then p.rail30 else if rail == 48 then p.rail48 else rail == 56 && p.rail56
  }

  // ---------------------------------------------------------------------------
  // Settings
  // ---------------------------------------------------------------------------

  /** The EEPROM cells the firmware uses: the voltage at 0x05, and two that a failed boot resets. */
  datatype Eeprom = Eeprom(voltage: byte, cell2: byte, cell3: byte)

  predicate IsSetting(v: int) {
    v in {0, 24, 30, 48, 56}
  }

  function PinsFor(v: int): Pins {
    Pins(v == 0, v == 30, v == 48, v == 56)
  }

  function LedFor(v: int): bv8 {
    if v == 24 then 0x08 else if v == 30 then 0x04 else if v == 48 then 0x02 else if v == 56 then 0x01 else 0x00
  }

  /** The voltage the pins select, whether or not the output is enabled. */
  function Selected(p: Pins): int {
    if p.rail30 then 30 else if p.rail48 then 48 else if p.rail56 then 56 else 24
  }

  function BatteryPercentage(adc: nat): nat {
    if adc < 2033 then 0 else if adc < 2075 then 10 else if adc < 2185 then 25
    else if adc < 2288 then 50 else if adc < 2385 then 75 else 100
  }

  /** The battery bar, in the high nibble. */
  function BatteryLeds(adc: nat): bv8 {
    var p := BatteryPercentage(adc);
    if p == 25 then 0x80 else if p == 50 then 0xC0 else if p == 75 then 0xE0 else if p == 100 then 0xF0 else 0x00
  }

  function WithBattery(led: bv8, adc: nat): bv8 {
    (led & 0x0F) | BatteryLeds(adc)
  }

  // ---------------------------------------------------------------------------
  // What each operation comes to
  // ---------------------------------------------------------------------------

  datatype State = State(pins: Pins, led: bv8, eeprom: Eeprom)

  function AfterBattery(s: State, adc: nat): State {
    s.(led := WithBattery(s.led, adc))
  }

  /** A command stores its value, cut to 8 bits; only the five settings do more than that. */
  function AfterCommand(s: State, value: int, adc: nat): State {
    var stored := s.eeprom.(voltage := value % 0x100);
    if IsSetting(value) then State(PinsFor(value), BatteryLeds(adc) | LedFor(value), stored)
    else s.(eeprom := stored)
  }

  function AfterBoot(eeprom: Eeprom): State {
    var v := eeprom.voltage;
    if IsSetting(v) then State(PinsFor(v), LedFor(v), eeprom)
    else State(PinsFor(0), 0xF0, Eeprom(0, 0, 1))
  }

  // ---------------------------------------------------------------------------
  // The firmware
  // ---------------------------------------------------------------------------

  class Board {
    var pins: Pins
    var led: bv8
    var eeprom: Eeprom
    /** The pins after each write so far, and the number of writes that cut a selected rail under an enabled output. */
    ghost var log: seq<Pins>
    ghost var liveCuts: nat

    ghost function Abs(): State
      reads this
    {
      State(pins, led, eeprom)
    }

    ghost predicate Valid()
      reads this
    {
      log != [] && log[|log| - 1] == pins && AtMostOneRail(pins) && SafeLog(log) && liveCuts == Cuts(log)
    }

    /** Power-up with a given EEPROM; the pins before POWER_INITIAL are not modelled. */
    constructor (eeprom: Eeprom)
      ensures Valid() && Abs() == AfterBoot(eeprom)
    {
      pins := Pins(true, false, false, false);
      led := 0x00;
      this.eeprom := eeprom;
      log := [Pins(true, false, false, false)];
      liveCuts := 0;
      new;
      Boot();
    }

    method Put(w: Write)
      requires Valid() && SafeWrite(pins, Written(pins, w))
      modifies this
      ensures Valid() && log == old(log) + [pins]
      ensures pins == Written(old(pins), w) && led == old(led) && eeprom == old(eeprom)
      ensures liveCuts == old(liveCuts) + if !old(pins).outputOff && Raises(pins, old(pins)) then 1 else 0
    {
      CutsGoOn(log, Written(pins, w));
      liveCuts := liveCuts + if !pins.outputOff && Raises(Written(pins, w), pins) then 1 else 0;
      pins := Written(pins, w);
      log := log + [pins];
    }

    /** The number of live cuts of a switch to `v`: one, if a rail other than that of `v` feeds the output. */
    ghost function CutsTo(v: int): nat
      reads this
    {
      if !pins.outputOff && Selected(pins) !in {24, v} then 1 else 0
    }

    // The switch cases that boot and command share, write by write.

    method SelectOff()
      requires Valid()
      modifies this
      ensures Valid() && old(log) <= log && eeprom == old(eeprom)
      ensures pins == PinsFor(0) && led == old(led) & 0xF0 && liveCuts == old(liveCuts)
    {
      hide SafeLog, Cuts;
      Put(OutputOff(true));
      Put(Rail56(false));
      Put(Rail48(false));
      Put(Rail30(false));
      led := led & 0xF0;
      Put(OutputOff(true));
    }

    method Select24()
      requires Valid()
      modifies this
      ensures Valid() && old(log) <= log && eeprom == old(eeprom)
      ensures pins == PinsFor(24) && led == (old(led) & 0xF0) | 0x08 && liveCuts == old(liveCuts) + old(CutsTo(24))
    {
      hide SafeLog, Cuts;
      Put(Rail56(false));
      Put(Rail48(false));
      Put(Rail30(false));
      Put(OutputOff(true));
      led := (led & 0xF0) | 0x08;
      Put(OutputOff(false));
    }

    method Select30()
      requires Valid()
      modifies this
      ensures Valid() && old(log) <= log && eeprom == old(eeprom)
      ensures pins == PinsFor(30) && led == (old(led) & 0xF0) | 0x04 && liveCuts == old(liveCuts) + old(CutsTo(30))
    {
      hide SafeLog, Cuts;
      Put(Rail56(false));
      Put(Rail48(false));
      Put(OutputOff(true));
      led := (led & 0xF0) | 0x04;
      Put(Rail30(true));
      Put(OutputOff(false));
    }

    method Select48()
      requires Valid()
      modifies this
      ensures Valid() && old(log) <= log && eeprom == old(eeprom)
      ensures pins == PinsFor(48) && led == (old(led) & 0xF0) | 0x02 && liveCuts == old(liveCuts) + old(CutsTo(48))
    {
      hide SafeLog, Cuts;
      Put(Rail56(false));
      Put(Rail30(false));
      Put(OutputOff(true));
      led := (led & 0xF0) | 0x02;
      Put(Rail48(true));
      Put(OutputOff(false));
    }

    method Select56()
      requires Valid()
      modifies this
      ensures Valid() && old(log) <= log && eeprom == old(eeprom)
      ensures pins == PinsFor(56) && led == (old(led) & 0xF0) | 0x01 && liveCuts == old(liveCuts) + old(CutsTo(56))
    {
      hide SafeLog, Cuts;
      Put(Rail48(false));
      Put(Rail30(false));
      Put(OutputOff(true));
      led := (led & 0xF0) | 0x01;
      Put(Rail56(true));
      Put(OutputOff(false));
    }

    /** POWER_INITIAL, GPIO_Initialize and the clearing of the LEDs. */
    method Initialize()
      requires Valid()
      modifies this
      ensures Valid() && old(log) <= log && eeprom == old(eeprom)
      ensures pins == Pins(true, false, false, false) && led == 0x00 && liveCuts == old(liveCuts)
    {
      hide SafeLog, Cuts;
      Put(OutputOff(true));
      Put(PortA01);
      Put(PortF00);
      Put(OutputOff(true));
      Put(Rail30(false));  // written as the discharge pin, which is the same latch bit
      led := 0x00;
    }

    /** The default case of the boot switch. */
    method ResetSetting()
      requires Valid() && pins.outputOff
      modifies this
      ensures Valid() && old(log) <= log && liveCuts == old(liveCuts)
      ensures pins == PinsFor(0) && eeprom == Eeprom(0, 0, 1) && led == old(led) | 0xF0
    {
      hide SafeLog, Cuts;
      Put(Rail56(false));
      Put(Rail48(false));
      Put(Rail30(false));
      Put(OutputOff(true));
      eeprom := eeprom.(voltage := 0);
      eeprom := eeprom.(cell2 := 0);
      eeprom := eeprom.(cell3 := 1);
      led := led | 0xF0;
      Put(OutputOff(true));
    }

    /** `main` up to its loop. */
    method Boot()
      requires Valid()
      modifies this
      ensures Valid() && old(log) <= log
      ensures Abs() == AfterBoot(old(eeprom))
      ensures liveCuts == old(liveCuts)
    {
      hide SafeLog, Cuts, AtMostOneRail;
      Initialize();
      var v := eeprom.voltage;
      if v == 0 {
        eeprom := eeprom.(voltage := 0);
        SelectOff();
      } else if v == 24 {
        eeprom := eeprom.(voltage := 24);
        Select24();
      } else if v == 30 {
        eeprom := eeprom.(voltage := 30);
        Select30();
      } else if v == 48 {
        eeprom := eeprom.(voltage := 48);
        Select48();
      } else if v == 56 {
        eeprom := eeprom.(voltage := 56);
        Select56();
      } else {
        ResetSetting();
      }
    }

    /** The display part of `sendPoeStatus`. */
    method SendPoeStatus(adc: nat)
      requires Valid()
      modifies this`led
      ensures led == WithBattery(old(led), adc)
    {
      var percentage := BatteryPercentage(adc);
      led := led & 0x0F;
      if percentage == 25 {
        led := led | 0x80;
      } else if percentage == 50 {
        led := led | 0xC0;
      } else if percentage == 75 {
        led := led | 0xE0;
      } else if percentage == 100 {
        led := led | 0xF0;
      }
    }

    /** `battery_percentage`, which also blinks the lowest bar once at 10 percent. */
    method UpdateBattery(adc: nat)
      requires Valid()
      modifies this`led
      ensures led == WithBattery(old(led), adc)
    {
      var percentage := BatteryPercentage(adc);
      led := led & 0x0F;
      if percentage == 10 {
        led := led | 0x80;
        led := led & !0x80;
      } else if percentage == 25 {
        led := led | 0x80;
      } else if percentage == 50 {
        led := led | 0xC0;
      } else if percentage == 75 {
        led := led | 0xE0;
      } else if percentage == 100 {
        led := led | 0xF0;
      }
    }

    /**
     The voltage command.  Exactly the commands that go from one of the three switched rails
     to another voltage, with the output enabled, cut that rail before they switch the output off.
     */
    method Command(value: int, adc: nat)
      requires Valid()
      modifies this
      ensures Valid() && old(log) <= log
      ensures Abs() == AfterCommand(old(Abs()), value, adc)
      ensures liveCuts == old(liveCuts) + if IsSetting(value) && value != 0 then old(CutsTo(value)) else 0
    {
      hide SafeLog, Cuts, AtMostOneRail;
      eeprom := eeprom.(voltage := value % 0x100);
      if value == 0 {
        SelectOff();
        SendPoeStatus(adc);
      } else if value == 24 {
        SendPoeStatus(adc);
        Select24();
      } else if value == 30 {
        SendPoeStatus(adc);
        Select30();
      } else if value == 48 {
        SendPoeStatus(adc);
        Select48();
      } else if value == 56 {
        SendPoeStatus(adc);
        Select56();
      }
    }

    /** The main loop's dispatch on whatever operations come, reboots included: every write of every run is safe. */
    method Execute(ops: seq<Operation>)
      requires Valid()
      modifies this
      ensures Valid() && old(log) <= log
      ensures Abs() == Run(old(Abs()), ops)
    {
      hide SafeLog, Cuts, AtMostOneRail, AfterCommand, AfterBoot;
      assert ops[..|ops|] == ops;
      for i := 0 to |ops|
        invariant Valid() && old(log) <= log
        invariant Abs() == Run(old(Abs()), ops[..i])
      {
        assert ops[..i + 1][..i] == ops[..i];
        match ops[i]
        case Command(value, adc) => Command(value, adc);
        case Battery(adc) => UpdateBattery(adc);
        case Reboot => Boot();
      }
    }
  }

  // ---------------------------------------------------------------------------
  // Agreement
  // ---------------------------------------------------------------------------

  /** The stored voltage, the selected rail, the output enable and the voltage LED all say the same. */
  predicate Agrees(s: State) {
    var v := s.eeprom.voltage;
    IsSetting(v) && s.pins == PinsFor(v) && s.led & 0x0F == LedFor(v)
  }

  datatype Operation = Command(value: int, adc: nat) | Battery(adc: nat) | Reboot

  function After(s: State, op: Operation): State {
    match op
    case Command(value, adc) => AfterCommand(s, value, adc)
    case Battery(adc) => AfterBattery(s, adc)
    case Reboot => AfterBoot(s.eeprom)
  }

  function Run(s: State, ops: seq<Operation>): State {
    if ops == [] then s else After(Run(s, ops[..|ops| - 1]), ops[|ops| - 1])
  }

  lemma Nibbles(led: bv8, adc: nat, v: int)
    ensures WithBattery(led, adc) & 0x0F == led & 0x0F
    ensures (BatteryLeds(adc) | LedFor(v)) & 0x0F == LedFor(v) & 0x0F == LedFor(v)
  {
  }

  /** Whatever the EEPROM holds, a boot ends in agreement; and a battery update keeps it. */
  lemma BootAgrees(s: State, adc: nat)
    ensures Agrees(AfterBoot(s.eeprom))
    ensures Agrees(AfterBattery(s, adc)) <==> Agrees(s)
  {
    Nibbles(s.led, adc, 0);
  }

  /** From any state, a command for one of the five settings ends in agreement at that setting. */
  lemma SettingSettles(s: State, v: int, adc: nat)
    requires IsSetting(v)
    ensures Agrees(AfterCommand(s, v, adc)) && AfterCommand(s, v, adc).eeprom.voltage == v
  {
    Nibbles(s.led, adc, v);
  }

  /** A command keeps the agreement exactly when it is one of the five settings or stores what is stored already. */
  lemma CommandAgreesExactlyWhen(s: State, value: int, adc: nat)
    requires Agrees(s)
    ensures Agrees(AfterCommand(s, value, adc)) <==> IsSetting(value) || value % 0x100 == s.eeprom.voltage
  {
    Nibbles(s.led, adc, value);
  }

  /** The command 280 stores 24 and leaves the board at 48 volts. */
  lemma TruncatedCommandDisagrees()
    ensures var s := AfterBoot(Eeprom(48, 0, 0));
      var r := AfterCommand(s, 280, 0);
      Agrees(s) && r.eeprom.voltage == 24 && Selected(r.pins) == 48 && !Agrees(r)
  {
    BootAgrees(AfterBoot(Eeprom(48, 0, 0)), 0);
  }

  /** The settings one by one: which rail, whether the output is on, and which LED. */
  predicate Shows(s: State, v: int) {
    && (v == 0 ==> s.pins == Pins(true, false, false, false) && s.led & 0x0F == 0x00)
    && (v == 24 ==> s.pins == Pins(false, false, false, false) && s.led & 0x0F == 0x08)
    && (v == 30 ==> s.pins == Pins(false, true, false, false) && s.led & 0x0F == 0x04)
    && (v == 48 ==> s.pins == Pins(false, false, true, false) && s.led & 0x0F == 0x02)
    && (v == 56 ==> s.pins == Pins(false, false, false, true) && s.led & 0x0F == 0x01)
  }

  /** What a command and a boot do, in numbers. */
  lemma SettingsInNumbers(s: State, v: int, adc: nat)
    requires v in {0, 24, 30, 48, 56}
    ensures Shows(AfterCommand(s, v, adc), v) && AfterCommand(s, v, adc).eeprom == s.eeprom.(voltage := v)
    ensures AfterCommand(s, v, adc).led & 0xF0 == BarInNumbers(adc)
    ensures s.eeprom.voltage == v ==> Shows(AfterBoot(s.eeprom), v) && AfterBoot(s.eeprom).led & 0xF0 == 0x00
    ensures s.eeprom.voltage !in {0, 24, 30, 48, 56} ==>
      AfterBoot(s.eeprom) == State(Pins(true, false, false, false), 0xF0, Eeprom(0, 0, 1))
  {
    BarOfLeds(adc);
    if v == 0 {
    } else if v == 24 {
    } else if v == 30 {
    } else if v == 48 {
    } else {
    }
  }

  /** One of the upper four LEDs for each quarter of the charge. */
  function BarInNumbers(adc: nat): bv8 {
    if adc >= 2385 then 0xF0 else if adc >= 2288 then 0xE0 else if adc >= 2185 then 0xC0
    else if adc >= 2075 then 0x80 else 0x00
  }

  lemma BarOfLeds(adc: nat)
    ensures BatteryLeds(adc) == BarInNumbers(adc) == BatteryLeds(adc) & 0xF0
  {
  }

  /** The battery bar shows the charge, leaves the voltage LEDs, and never shrinks as the charge grows. */
  lemma BatteryInNumbers(s: State, adc: nat, more: nat)
    requires adc <= more
    ensures AfterBattery(s, adc).led == (s.led & 0x0F) | BarInNumbers(adc)
    ensures BarInNumbers(adc) & BarInNumbers(more) == BarInNumbers(adc)
    ensures AfterBattery(s, adc).pins == s.pins && AfterBattery(s, adc).eeprom == s.eeprom
  {
    BarOfLeds(adc);
  }

  predicate KnownCommand(op: Operation) {
    op.Command? ==> IsSetting(op.value)
  }

  /**
   After any boot and any sequence of known commands, battery updates and reboots everything
   agrees, and the setting is that of the last command.
   */
  lemma {:induction false} RunsAgree(eeprom: Eeprom, ops: seq<Operation>)
    requires forall i :: 0 <= i < |ops| ==> KnownCommand(ops[i])
    ensures Agrees(Run(AfterBoot(eeprom), ops))
    ensures Run(AfterBoot(eeprom), ops).eeprom.voltage == LastSetting(AfterBoot(eeprom).eeprom.voltage, ops)
  {
    if ops == [] {
      BootAgrees(AfterBoot(eeprom), 0);
    } else {
      var before, op := ops[..|ops| - 1], ops[|ops| - 1];
      RunsAgree(eeprom, before);
      var s := Run(AfterBoot(eeprom), before);
      match op
      case Command(value, adc) => CommandAgreesExactlyWhen(s, value, adc);
      case Battery(adc) => BootAgrees(s, adc);
      case Reboot => BootAgrees(s, 0);
    }
  }

  function LastSetting(initial: int, ops: seq<Operation>): int {
    if ops == [] then initial
    else if ops[|ops| - 1].Command? then ops[|ops| - 1].value
    else LastSetting(initial, ops[..|ops| - 1])
  }

  /** Where everything agrees, rebooting changes neither the pins, nor the EEPROM, nor the voltage LED. */
  lemma RebootReproduces(s: State)
    requires Agrees(s)
    ensures var r := AfterBoot(s.eeprom);
      r.pins == s.pins && r.eeprom == s.eeprom && r.led & 0x0F == s.led & 0x0F
  {
    BootAgrees(s, 0);
  }
}
