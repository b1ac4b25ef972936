/**
 One pass of the PoE controller's main loop over all its parts, and the end-to-end meaning
 of a voltage command: from bytes on the wire to the selected rail.
 */
module MainLoop {
  import opened Bytes
  import VoltageCommand
  import Receiver
  import PowerRails
  import Thermistor
  import TemperatureFilter
  import FanControl

  /** What the main loop does to the board once a parse has come to its outcome. */
  function Obeyed(s: PowerRails.State, outcome: Receiver.Pc, adc: nat): PowerRails.State {
    match outcome
    case Answering => PowerRails.AfterBattery(s, adc)
    case Done(value) => PowerRails.AfterCommand(s, value, adc)
    case _ => s
  }

  /** The main loop about to parse the line in `rx`, with the flag cleared. */
  function AboutToParse(rx: Receiver.Rx): Receiver.System {
    Receiver.System(rx.(complete := false), Receiver.Testing(0))
  }

  /** The receiver after `during`, if there is a line to parse. */
  ghost function AfterLine(rx: Receiver.Rx, during: seq<Receiver.Event>): (r: Receiver.System)
    requires Receiver.ValidRx(rx)
    ensures Receiver.Valid(r)
  {
    if rx.complete then Receiver.Run(AboutToParse(rx), during) else Receiver.System(rx, Receiver.Polling)
  }

  /** `temp` is what the table `v` reads at the mean of `readings`. */
  ghost predicate Measured(v: seq<real>, readings: seq<nat>, temp: real) {
    && Thermistor.Descending(v)
    && exists volt: real :: volt * 27300.0 == Thermistor.Sum(readings) as real && Thermistor.OnCurve(v, volt, temp)
  }

  class Controller {
    const uart: Receiver.Uart
    const board: PowerRails.Board
    const filter: TemperatureFilter.Filter
    const fan: FanControl.FanController
    var batteryUpdateCounter: byte

    ghost predicate Valid()
      reads this, uart, uart.usartRxBuff, board, filter, fan
    {
      && batteryUpdateCounter < 5
      && Receiver.ValidRx(uart.Abs()) && board.Valid() && filter.Valid() && fan.Valid()
    }

    constructor (eeprom: PowerRails.Eeprom)
      ensures Valid() && batteryUpdateCounter == 0
      ensures board.Abs() == PowerRails.AfterBoot(eeprom)
      ensures filter.Abs() == TemperatureFilter.INITIAL && fan.run == []
      ensures fresh(uart) && fresh(uart.usartRxBuff) && fresh(board) && fresh(filter) && fresh(fan)
    {
      uart := new Receiver.Uart();
      board := new PowerRails.Board(eeprom);
      filter := new TemperatureFilter.Filter();
      fan := new FanControl.FanController();
      batteryUpdateCounter := 0;
    }

    /**
     One pass.  The arguments are what comes in during it: the bytes that arrive before the flag is
     looked at, the accesses and byte interrupts of the parse, and the bytes while the line is
     executed; the timer interrupts before the fan is decided on; and the ADC readings.
     */
    method Pass(
        early: seq<byte>, during: seq<Receiver.Event>, late: seq<byte>, ticks: nat,
        batteryAdc: nat, statusAdc: nat, temperatureAdc: seq<nat>)
      requires Valid()
      requires AreReadings(temperatureAdc)
      requires var rx := Receiver.Fed(uart.Abs(), early);
        rx.complete ==> Receiver.IsParse(AboutToParse(rx), during)
      modifies this, uart, uart.usartRxBuff, board, filter, fan
      ensures Valid()
      ensures batteryUpdateCounter == (old(batteryUpdateCounter) + 1) % 5
      ensures var s := if batteryUpdateCounter == 0 then PowerRails.AfterBattery(old(board.Abs()), batteryAdc)
                       else old(board.Abs());
        var r := AfterLine(Receiver.Fed(old(uart.Abs()), early), during);
        board.Abs() == Obeyed(s, r.pc, statusAdc) && uart.Abs() == Receiver.Fed(r.rx, late)
      ensures Regulated(old(filter.Abs()), filter.Abs(), temperatureAdc)
      ensures fan.run == old(fan.run) + FanControl.Ticks(ticks) + [FanControl.Sample(filter.Abs().held)]
    {
      hide Receiver.ValidRx, Receiver.Fed, Receiver.Run, Receiver.IsParse, AfterLine;
      UpdateBattery(batteryAdc);
      uart.OnBytes(early);
      HandleLine(during, statusAdc);
      uart.OnBytes(late);
      fan.OnTimers(ticks);
      RegulateFan(temperatureAdc);
    }

    method UpdateBattery(batteryAdc: nat)
      requires batteryUpdateCounter < 5 && board.Valid()
      modifies this, board
      ensures board.Valid() && batteryUpdateCounter == (old(batteryUpdateCounter) + 1) % 5
      ensures board.Abs() == if batteryUpdateCounter == 0 then PowerRails.AfterBattery(old(board.Abs()), batteryAdc)
                             else old(board.Abs())
    {
      batteryUpdateCounter := batteryUpdateCounter + 1;
      if batteryUpdateCounter >= 5 {
        board.UpdateBattery(batteryAdc);
        batteryUpdateCounter := 0;
      }
    }

    method RegulateFan(temperatureAdc: seq<nat>)
      requires filter.Valid() && fan.Valid() && AreReadings(temperatureAdc)
      modifies filter, fan
      ensures filter.Valid() && fan.Valid()
      ensures Regulated(old(filter.Abs()), filter.Abs(), temperatureAdc)
      ensures fan.run == old(fan.run) + [FanControl.Sample(filter.Abs().held)]
    {
      var volt := Thermistor.ReadVoltage(temperatureAdc);
      Thermistor.TableDescends();
      var temp := Thermistor.VoltageToTemperature(Thermistor.Table(), volt);
      assert Measured(Thermistor.Table(), temperatureAdc, temp);
      var filtered := filter.Next(temp);
      fan.ControlTask(filtered);
    }

    method HandleLine(during: seq<Receiver.Event>, statusAdc: nat)
      requires Receiver.ValidRx(uart.Abs()) && board.Valid()
      requires uart.receiveComplete ==> Receiver.IsParse(AboutToParse(uart.Abs()), during)
      modifies uart, uart.usartRxBuff, board
      ensures Receiver.ValidRx(uart.Abs()) && board.Valid()
      ensures var r := AfterLine(old(uart.Abs()), during);
        board.Abs() == Obeyed(old(board.Abs()), r.pc, statusAdc) && uart.Abs() == r.rx
    {
      hide Receiver.IsParse, Receiver.Run;
      if uart.receiveComplete {
        uart.receiveComplete := false;
        var outcome := uart.Parse(during);
        match outcome {
          case Answering => board.SendPoeStatus(statusAdc);
          case Done(value) => board.Command(value, statusAdc);
          case _ =>
        }
      }
    }
  }

  predicate AreReadings(readings: seq<nat>) {
    |readings| == Thermistor.ADC_SAMPLES && forall i :: 0 <= i < |readings| ==> readings[i] < 0x1000
  }

  /** The filter has taken the temperature measured by `readings`. */
  ghost predicate Regulated(before: TemperatureFilter.State, after: TemperatureFilter.State, readings: seq<nat>)
    requires before.count < TemperatureFilter.CONFIRM_COUNT
  {
    exists temp :: Measured(Thermistor.Table(), readings, temp) && after == TemperatureFilter.After(before, temp)
  }

  // ---------------------------------------------------------------------------
  // From the thermistor to the fan
  // ---------------------------------------------------------------------------

  /**
   In a pass that reports a new temperature, and in the first one, the sum of the twenty readings
   decides: a fan that stands still is switched on at a sum of at most 19819 and at no other, and a
   fan that runs keeps running at a sum below 26017.
   */
  lemma ReadingsSwitchTheFan(before: TemperatureFilter.State, after: TemperatureFilter.State, readings: seq<nat>,
                             run: seq<FanControl.Event>)
    requires before.count < TemperatureFilter.CONFIRM_COUNT && Regulated(before, after, readings)
    requires !before.initialized || after.held != before.held
    ensures var on := FanControl.FanOn(run + [FanControl.Sample(after.held)]);
      && (!FanControl.FanOn(run) ==> (on <==> Thermistor.Sum(readings) <= 19819))
      && (FanControl.FanOn(run) && Thermistor.Sum(readings) < 26017 ==> on)
  {
    var v := Thermistor.Table();
    var temp :| Measured(v, readings, temp) && after == TemperatureFilter.After(before, temp);
    var volt: real :| volt * 27300.0 == Thermistor.Sum(readings) as real && Thermistor.OnCurve(v, volt, temp);
    Thermistor.FanThresholdSums(v, readings, volt, temp);
    FanControl.SwitchesInNumbers(run, temp);
  }

  // ---------------------------------------------------------------------------
  // From the wire to the rails
  // ---------------------------------------------------------------------------

  datatype Request = Request(n: int, crlf: bool)

  function LineOf(c: Request): seq<byte> {
    VoltageCommand.CommandLine(c.n, c.crlf)
  }

  /** The line of the request fits the receive buffer. */
  predicate Fits(c: Request) {
    |LineOf(c)| <= Receiver.FRAME_SIZE - 1
  }

  /** A pass obeys the line as it stood, and loses no byte, if no byte changes the text still to be parsed. */
  lemma LineObeyedInPass(rx: Receiver.Rx, during: seq<Receiver.Event>)
    requires Receiver.ValidRx(rx) && rx.complete
    requires Receiver.IsParse(AboutToParse(rx), during) && Receiver.StaysAhead(AboutToParse(rx), during)
    ensures AfterLine(rx, during).pc == Receiver.Outcome(rx)
    ensures AfterLine(rx, during).rx == Receiver.Fed(rx.(complete := false), Receiver.BytesIn(during))
  {
    hide Receiver.Run, Receiver.StaysAhead, Receiver.Fed, Receiver.BytesIn, Receiver.Parsing;
    Receiver.InterleavedParse(AboutToParse(rx), during);
    Receiver.SameOutcome(rx);
  }

  /** A buffer that holds the complete command line for `n` commands exactly the voltage `n`, in 16 bits. */
  lemma LineObeyed(rx: Receiver.Rx, c: Request)
    requires Receiver.Holds(rx, LineOf(c))
    ensures Receiver.Outcome(rx) == Receiver.Done(ToInt16(c.n))
  {
    VoltageCommand.CommandLineMeans(rx.buff, c.n, c.crlf);
  }

  /**
   End to end: a command line that fits, received while the main loop waits, commands its number in
   16 bits, also if it arrives in two parts of which the first still falls into the execution of
   the command before.
   */
  lemma CommandTakesEffect(
      s: Receiver.System, events: seq<Receiver.Event>, c: Request, board: PowerRails.State, adc: nat)
    requires Receiver.Valid(s) && Receiver.Waiting(s.pc) && s.rx.cnt == 0 && !s.rx.complete && Fits(c)
    requires Receiver.BytesIn(events) + [VoltageCommand.LF] == LineOf(c)
    ensures var rx := Receiver.Run(s, events + [Receiver.Byte(VoltageCommand.LF)]).rx;
      && rx.complete
      && Obeyed(board, Receiver.Outcome(rx), adc) == PowerRails.AfterCommand(board, ToInt16(c.n), adc)
      && (PowerRails.IsSetting(ToInt16(c.n)) ==> PowerRails.Agrees(Obeyed(board, Receiver.Outcome(rx), adc)))
  {
    var rx := Receiver.Run(s, events + [Receiver.Byte(VoltageCommand.LF)]).rx;
    LineIsOneLine(c);
    LineReceived(s, events, LineOf(c));
    LineObeyed(rx, c);
    if PowerRails.IsSetting(ToInt16(c.n)) {
      PowerRails.SettingSettles(board, ToInt16(c.n), adc);
    }
  }

  /**
   The same of a status query: a line that starts with "get_ST", received while the main loop waits,
   is answered, and all it changes on the board is the battery bar.
   */
  lemma QueryTakesEffect(
      s: Receiver.System, events: seq<Receiver.Event>, line: seq<byte>, board: PowerRails.State, adc: nat)
    requires Receiver.Valid(s) && Receiver.Waiting(s.pc) && s.rx.cnt == 0 && !s.rx.complete
    requires Receiver.BytesIn(events) + [Code('\n')] == line && Receiver.IsLine(line)
    requires |line| > 6 && line[..6] == Ascii("get_ST")
    ensures var rx := Receiver.Run(s, events + [Receiver.Byte(Code('\n'))]).rx;
      && rx.complete && Receiver.Outcome(rx) == Receiver.Answering
      && Obeyed(board, Receiver.Outcome(rx), adc) == PowerRails.AfterBattery(board, adc)
  {
    var rx := Receiver.Run(s, events + [Receiver.Byte(Code('\n'))]).rx;
    LineReceived(s, events, line);
    assert rx.buff[..6] == rx.buff[..|line|][..6];
    Receiver.OutcomeOfText(rx);
  }

  /** The query the switch sends is such a line. */
  lemma SwitchQueryIsLine()
    ensures var line := Ascii("get_STATUS;\r\n");
      Receiver.IsLine(line) && |line| > 6 && line[..6] == Ascii("get_ST")
  {
    var line := Ascii("get_STATUS;\r\n");
    assert line[..|line| - 1] == Ascii("get_STATUS;\r");
  }

  lemma LineReceived(s: Receiver.System, events: seq<Receiver.Event>, line: seq<byte>)
    requires Receiver.Valid(s) && Receiver.Waiting(s.pc) && s.rx.cnt == 0 && !s.rx.complete
    requires Receiver.BytesIn(events) + [VoltageCommand.LF] == line && Receiver.IsLine(line)
    ensures Receiver.Holds(Receiver.Run(s, events + [Receiver.Byte(VoltageCommand.LF)]).rx, line)
  {
    var bytes := Receiver.BytesIn(events);
    assert bytes == line[..|line| - 1];
    Receiver.WaitsForLine(s, events);
    Receiver.RunOneMore(s, events, Receiver.Byte(VoltageCommand.LF));
    Receiver.LineArrives(s.rx, line);
    Receiver.FedAppends(s.rx, bytes, [VoltageCommand.LF]);
    Receiver.FeedsOne(Receiver.Fed(s.rx, bytes), VoltageCommand.LF);
  }

  // ---------------------------------------------------------------------------
  // Commands one after the other
  // ---------------------------------------------------------------------------

  /** Successive rounds of the main loop, each of which brings in the line of the next request. */
  ghost predicate AreRounds(s: Receiver.System, rounds: seq<Receiver.Round>, requests: seq<Request>)
    requires Receiver.Valid(s)
    decreases |rounds|
  {
    && |requests| == |rounds|
    && (rounds != [] ==>
        && Fits(requests[0]) && Receiver.IsRound(s, rounds[0], LineOf(requests[0]))
        && AreRounds(Receiver.AfterRound(s, rounds[0]), rounds[1..], requests[1..]))
  }

  /** What the parses of the rounds come to. */
  ghost function Outcomes(s: Receiver.System, rounds: seq<Receiver.Round>): (p: seq<Receiver.Pc>)
    requires Receiver.Valid(s)
    ensures |p| == |rounds|
    decreases |rounds|
  {
    if rounds == [] then []
    else [Receiver.AfterParse(s, rounds[0]).pc] + Outcomes(Receiver.AfterRound(s, rounds[0]), rounds[1..])
  }

  /**
   Every command of a run is obeyed, although the line after it may begin to arrive while it is
   parsed and goes on arriving while it is executed.
   */
  lemma {:induction false} EveryCommandObeyed(
      s: Receiver.System, first: Request, rounds: seq<Receiver.Round>, next: seq<Request>)
    requires Receiver.Valid(s) && Receiver.Holds(s.rx, LineOf(first)) && AreRounds(s, rounds, next)
    ensures forall i :: 0 <= i < |rounds| ==> Outcomes(s, rounds)[i] == Receiver.Done(ToInt16(([first] + next)[i].n))
    decreases |rounds|
  {
    hide Receiver.IsRound, Receiver.AfterRound, Receiver.AfterParse, Receiver.Holds, LineOf, Fits, ToInt16;
    if rounds != [] {
      var r := Receiver.AfterRound(s, rounds[0]);
      LineObeyed(s.rx, first);
      Receiver.RoundSucceeds(s, rounds[0], LineOf(next[0]));
      EveryCommandObeyed(r, next[0], rounds[1..], next[1..]);
      OneMore(s, rounds, first, next);
    }
  }

  /** There are such runs: for every list of requests that fit, and from every waiting state with a complete line. */
  lemma {:induction false} RunsExist(s: Receiver.System, next: seq<Request>) returns (rounds: seq<Receiver.Round>)
    requires Receiver.Valid(s) && Receiver.Waiting(s.pc) && s.rx.complete
    requires forall i :: 0 <= i < |next| ==> Fits(next[i])
    ensures AreRounds(s, rounds, next)
    decreases |next|
  {
    hide Receiver.IsRound, Receiver.AfterRound, Receiver.Waiting, LineOf, Fits;
    if next == [] {
      rounds := [];
    } else {
      LineIsOneLine(next[0]);
      var round := Receiver.RoundExists(s, LineOf(next[0]));
      Receiver.RoundSucceeds(s, round, LineOf(next[0]));
      var r := Receiver.AfterRound(s, round);
      assert r.rx.complete by { assert Receiver.Holds(r.rx, LineOf(next[0])); }
      var rest := RunsExist(r, next[1..]);
      rounds := [round] + rest;
      assert rounds[1..] == rest;
    }
  }

  lemma OneMore(s: Receiver.System, rounds: seq<Receiver.Round>, first: Request, next: seq<Request>)
    requires Receiver.Valid(s) && |next| == |rounds| > 0
    ensures forall i :: 0 < i < |rounds| ==>
      && Outcomes(s, rounds)[i] == Outcomes(Receiver.AfterRound(s, rounds[0]), rounds[1..])[i - 1]
      && ([first] + next)[i] == ([next[0]] + next[1..])[i - 1]
  {
    hide Receiver.AfterRound, Receiver.AfterParse;
  }

  /** So after any such run of the five settings the board agrees on the last one executed. */
  lemma RunSettles(s: Receiver.System, first: Request, rounds: seq<Receiver.Round>, next: seq<Request>,
                   eeprom: PowerRails.Eeprom, adcs: seq<nat>)
    requires Receiver.Valid(s) && Receiver.Holds(s.rx, LineOf(first)) && AreRounds(s, rounds, next)
    requires |adcs| == |rounds| > 0
    requires forall i :: 0 <= i < |rounds| ==> PowerRails.IsSetting(([first] + next)[i].n)
    ensures var board := PowerRails.Run(PowerRails.AfterBoot(eeprom), Operations(Outcomes(s, rounds), adcs));
      PowerRails.Agrees(board) && board.eeprom.voltage == ([first] + next)[|rounds| - 1].n
  {
    hide Outcomes, LineOf, Receiver.Holds, Receiver.IsRound, Receiver.AfterRound;
    EveryCommandObeyed(s, first, rounds, next);
    var ops := Operations(Outcomes(s, rounds), adcs);
    forall i | 0 <= i < |ops|
      ensures PowerRails.KnownCommand(ops[i]) && ops[i] == PowerRails.Command(([first] + next)[i].n, adcs[i])
    {
      assert PowerRails.IsSetting(([first] + next)[i].n);
    }
    PowerRails.RunsAgree(eeprom, ops);
  }

  /** The operations on the board that the outcomes call for, each with its ADC reading. */
  function Operations(outcomes: seq<Receiver.Pc>, adcs: seq<nat>): (ops: seq<PowerRails.Operation>)
    requires |outcomes| == |adcs|
    ensures |ops| == |outcomes|
  {
    seq(|outcomes|, i requires 0 <= i < |outcomes| =>
      match outcomes[i]
      case Done(value) => PowerRails.Command(value, adcs[i])
      case _ => PowerRails.Battery(adcs[i]))
  }

  // ---------------------------------------------------------------------------
  // Lines of commands
  // ---------------------------------------------------------------------------

  lemma {:induction false} DecimalLength(n: nat, k: nat)
    requires n < 10 || (k > 0 && n / 10 < Power10(k))
    ensures |VoltageCommand.Decimal(n)| <= k + 1
    decreases k
  {
    if n >= 10 {
      DecimalLength(n / 10, k - 1);
    }
  }

  function Power10(k: nat): nat {
    if k == 0 then 1 else 10 * Power10(k - 1)
  }

  /** The line of any 16-bit number fits. */
  lemma WordFits(c: Request)
    requires -0x8000 <= c.n < 0x8000
    ensures Fits(c)
  {
    var magnitude := if c.n < 0 then -c.n else c.n;
    assert Power10(4) == 10_000;
    DecimalLength(magnitude, 4);
  }

  /** A command line that fits has its only line feed at the end. */
  lemma LineIsOneLine(c: Request)
    requires Fits(c)
    ensures Receiver.IsLine(LineOf(c))
  {
    var number, line := VoltageCommand.SignedDecimal(c.n), LineOf(c);
    var front := VoltageCommand.PREFIX + number + [VoltageCommand.SEMICOLON];
    assert line[..|line| - 1] == front + if c.crlf then [VoltageCommand.CR] else [];
  }
}
