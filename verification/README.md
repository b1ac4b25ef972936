# Verified model of the PoE controller and the switch firmware

This Dafny project models two firmwares that share a board and proves properties of their runs.

**The PoE controller** (`8367_fmd.c`). A UART interrupt collects command lines while the main loop parses
them in place; a voltage command switches one of three rails by ordered pin writes and stores the setting in
EEPROM; a thermistor reading is averaged, interpolated, filtered against spikes and drives a fan with
hysteresis and a three-minute cooldown counted by the timer interrupt; raw ADC values are corrected through
tables; a status message is framed and checksummed.

**The switch firmware.** The Ethernet layer strips and inserts tags by overlapping moves, ICMP computes the
Internet checksum, IPv6 walks over extension headers, a debounced button reboots or resets, TFTP downloads an
image to flash, and MDIO is driven bit by bit.

State that the firmware updates in place is a class whose methods are the firmware's functions. Each class is
proved against a requirement that reads a whole run, or the contents of the buffer, without the firmware's
counters and flags; the lemmas then say what the requirement means. `Bytes`, `Moves`,
`Folding` and `Options` hold the fixed-width integers, the overlapping moves, check symbols, and the type of a
value that may be missing.

| module | what is modelled |
|---|---|
| `FanControl`, `FanSteps`, `TemperatureFilter`, `Thermistor`, `Calibration` | the temperature chain, the fan and the ADC correction |
| `VoltageCommand`, `Receiver`, `PowerRails`, `StatusMessage`, `MainLoop` | commands from the wire to the rails, and the status message |
| `EthTag`, `Checksum`, `Ipv6Walk`, `Tftp`, `Flash` | the packet code of the switch, and the flash it writes |
| `ResetButton`, `Mdio` | its button and its management bus |

## Findings

Where the code does not do what one would expect of it, the model keeps the code and lemmas say when.

- A command outside 0, 24, 30, 48 and 56 changes only the stored voltage, cut to 8 bits
  (`PowerRails.CommandAgreesExactlyWhen`, `PowerRails.TruncatedCommandDisagrees`).
- Going from a switched rail to another voltage lowers the old rail before the output is switched off
  (`PowerRails.Board.Command`).
- Three outliers in a row do not always move the filter, because one that contradicts its predecessor is not
  counted itself (`TemperatureFilter.ThreeOutliersMayNotSuffice`).
- TFTP ignores block numbers, so a repeated block corrupts the image (`Tftp.DownloadExactWithoutRepeats`).
- TFTP ignores the result of `flash_write`, which refuses every block that touches a protected region or reaches
  beyond the chip: such blocks are acknowledged and missing from the flash (`Tftp.FileInFlash`,
  `Tftp.FlashHoldsFileExactlyWhen`, `Tftp.ShippedRegionsStay`).
- A read on the management bus sends 31 ones although its comment says 32 (`Mdio.ReadBackExactlyWhen`,
  `Mdio.StrictReadReturns`).
- The macros `TEMP_HIGH_V` and `TEMP_LOW_V` are not used and disagree with the table
  (`Thermistor.MacrosDisagree`); the thresholds are 60 and 50 degrees, as coded.
- A received byte is lost when it reaches the end of the number while the parser's temporary NUL stands there,
  because the saved character is put back over it (`Receiver.RestorationExactlyWhen`, `Receiver.AByteCanBeLost`).
  This is a statement about all interleavings, without time: in the run every position up to the end of the number
  is received anew within one parse, which for a voltage command takes about 16 ms at 9600 baud.
- A received byte that overtakes the parser is read as part of the old line
  (`Receiver.OvertakenParseReadsZero`); a line is read as it stood when no byte changes the text still to be
  read (`Receiver.InterleavedParse`).
- The 16-bit counter of a press meets its requirement exactly for reset times up to 65529 ticks; the shipped one
  is 30 (`ResetButton.SafeExactlyUpTo`, `ResetButton.ResetMissed`).

## Model

| member | source | states |
|---|---|---|
| `FanControl.FanController.OnTimer` | 8367_fmd.c:1575-1599 | in any order with `ControlTask`, one timer interrupt keeps all four flags and the three counters equal to what the run so far requires: the counters refine one count of interrupts from 0 to 180000, the timer is active exactly while that count is below 180000, the fan is on iff a hot sample is pending |
| `FanControl.FanController.ControlTask` | 8367_fmd.c:2221-2289 | the same for one control call with any filtered temperature |
| `FanControl.OffOnlyOnCold` | 8367_fmd.c:2243-2253 | in every run the fan goes off only on a sample at or below 50 |
| `FanControl.OnOnlyOnHot` | 8367_fmd.c:2231-2240 | and on only on a sample at or above 60 |
| `FanControl.CooldownServed` | 8367_fmd.c:2243-2286 | if a sample between 50 and 60 was seen since the last one at or above 60, the fan goes off only after 180000 interrupts since the first such sample, and since the cooldown was last restarted |
| `FanControl.CooldownInForce` | 8367_fmd.c:2256-2286 | from the first warm sample on a cooldown is in force as long as the fan runs; only one that has been served is replaced by a later one |
| `FanControl.CooldownEnds` | 8367_fmd.c:2243-2253 | a served cooldown is followed by switching off at the next cold sample if neither a warm nor a hot one came since it began; a warm one restarts it |
| `FanControl.SwitchesInNumbers` | 8367_fmd.c:2231-2286 | step by step: a sample of at least 60 switches the fan on, none above 50 switches it off, none below 60 switches it on, and interrupts change nothing |
| `FanControl.ColdAfterHot` | 8367_fmd.c:2243-2253 | without a warm sample since the last hot one a cold sample leaves the fan off at once |
| `FanControl.CooldownHolds` | 8367_fmd.c:2256-2286 | until 180000 interrupts have come a cooldown stays as it is: cold samples wait, and warm ones do not begin it anew |
| `FanControl.ServedCooldownRestarts` | 8367_fmd.c:2268-2285 | after a served cooldown a warm sample begins another one, during which a cold sample waits |
| `FanSteps.RunIsSound` | 8367_fmd.c:1575-1599 | with the timer interrupt between any two accesses of the control task to the shared variables, the counters stay in range, and are zero while the timer is inactive except for what it has still to clear |
| `FanSteps.CooldownServed` | 8367_fmd.c:2221-2289 | with interrupts anywhere between these accesses, the pin switches the fan off only after 180000 interrupts since the control task was first started with a warm temperature after the last hot one, if ever it was |
| `FanSteps.Refines` | 8367_fmd.c:2221-2289 | access by access but without an interrupt in between, the control task has the effect required of one step: pin, flags and counters are what the interrupts and samples so far require |
| `FanSteps.PinIsRequired` | 8367_fmd.c:2288 | then the pin is high iff the fan is required to run |
| `FanSteps.TaskEnds` | 8367_fmd.c:2221-2289 | the control task ends after at most thirteen accesses |
| `FanSteps.ColdSwitchesOff` | 8367_fmd.c:2243-2253 | with interrupts anywhere, a cold sample that finds the timer inactive leaves the pin low |
| `FanSteps.ColdWhileActive` | 8367_fmd.c:2243-2253 | and one that finds it active leaves the fan as it was |
| `FanSteps.HotSwitchesOn` | 8367_fmd.c:2230-2240 | a hot sample leaves the pin high |
| `FanSteps.WarmKeepsOn` | 8367_fmd.c:2256-2286 | a warm sample leaves a running fan on |
| `TemperatureFilter.Filter.Next` | 8367_fmd.c:2176-2215 | one call takes the specified state transition and reports the held temperature |
| `TemperatureFilter.CounterIsEvidence` | 8367_fmd.c:2194-2211 | in every run the counter is backed by that many consecutive samples, each more than 2.0 from the held value and within 2.0 of the one before |
| `TemperatureFilter.JumpNeedsThreeOutliers` | 8367_fmd.c:2194-2207 | the report moves by more than 2.0 only on the third of three such samples |
| `TemperatureFilter.JumpInNumbers` | 8367_fmd.c:2185-2207 | the same in degrees, upwards and downwards: if the report moves by more than 2.0, the last three samples each lie more than 2.0 from the old report and within 2.0 of the one before |
| `TemperatureFilter.ReportInNumbers` | 8367_fmd.c:2176-2215 | the first sample is reported, one within 2.0 of the report is, and one more than 2.0 above or below it is not unless two outliers came just before |
| `TemperatureFilter.ThreeMoveTheReport` | 8367_fmd.c:2194-2207 | three samples more than 2.0 from the report on whichever side, each within 2.0 of the one before, move it with the third |
| `TemperatureFilter.ThreeOutliersMayNotSuffice` | 8367_fmd.c:2208-2211 | three such samples do not always suffice: for any three temperatures pairwise more than 2.0 apart, the third may come three times in a row after the other two and the report still be the first |
| `TemperatureFilter.RiseNotYetReported` | 8367_fmd.c:2208-2211 | the same within the range of the thermistor: 25, 45, 65, 65, 65 degrees still report 25 |
| `TemperatureFilter.FollowsExactlyWhenBelieved` | 8367_fmd.c:2185-2215 | exactly when the report follows a sample, and exactly when it jumps: iff two outliers have been counted and the sample is the third |
| `TemperatureFilter.FollowsAfterFourCalls` | 8367_fmd.c:2185-2215 | from any reachable state the report equals the input from the fourth of a series of agreeing samples on |
| `TemperatureFilter.ReportsASample` | 8367_fmd.c:2176-2215 | the report is always one of the samples received |
| `TemperatureFilter.SpikeIsInvisible` | 8367_fmd.c:2213-2215 | a lone spike changes neither its own report nor any later one |
| `TemperatureFilter.StaleSuspectIsHarmless` | 8367_fmd.c:2161-2211 | what is left in the suspect value while the counter is 0 never influences a report |
| `Thermistor.VoltageToTemperature` | 8367_fmd.c:2121-2156 | the result lies on the curve of the table, from every segment that contains the voltage; the final fall-back is unreachable |
| `Thermistor.SegmentsAgree` | 8367_fmd.c:2138-2151 | where segments meet they agree |
| `Thermistor.ReadingIsUniqueAndBounded` | 8367_fmd.c:2121-2156 | one reading per voltage, between the first and the last temperature of the table |
| `Thermistor.ExactAtEntries` | 8367_fmd.c:2143-2150 | every table entry is read exactly |
| `Thermistor.LinearBetween` | 8367_fmd.c:2138-2151 | between two entries the reading is linear in the voltage |
| `Thermistor.HotterWhenLower` | 8367_fmd.c:2121-2156 | the conversion is non-increasing in the voltage, strictly within the table |
| `Thermistor.TableDescends` | 8367_fmd.c:1330-1344 | the voltages of the firmware table strictly descend |
| `Thermistor.ReadVoltage` | 8367_fmd.c:2100-2115 | the scaled mean of twenty 12-bit readings lies in 0 to 3 V and is 1/27300 of their sum |
| `Thermistor.FanThresholdSums` | 8367_fmd.c:2100-2151 | the two fan thresholds as sums of the raw readings: at least 60 degrees iff at most 19819, at most 50 iff at least 26017 |
| `Thermistor.MacrosDisagree` | 8367_fmd.c:1297-1298 | the unused voltage macros for 60 and 40 degrees read above 63 and above 47 degrees on the table |
| `Calibration.Calibrate` | 8367_fmd.c:1821-1832 | on any non-decreasing 64-entry table starting at 0 the search finds the greatest index whose entry does not exceed the value; the 8-bit bounds never wrap |
| `Calibration.TablesAreWellFormed` | 8367_fmd.c:1358-1442 | all four pairs of firmware tables meet the assumptions |
| `Calibration.CorrectionIsMonotone` | 8367_fmd.c:1831 | a larger raw value is never corrected to a smaller one |
| `Calibration.CorrectedRange` | 8367_fmd.c:1821-1832 | the corrected value never exceeds 16 bits, and 12-bit values stay 12-bit values |
| `Calibration.WorkedValues` | 8367_fmd.c:1358-1442 | one worked value of each of the four configurations, and the peak of each correction table |
| `VoltageCommand.StrChr` | 8367_fmd.c:2062-2074 | the search stops at the first occurrence of the character or at the terminating NUL, inside the buffer |
| `VoltageCommand.ExtractAndConvert` | 8367_fmd.c:2061-2095 | the value is the number after the first colon up to the first of the delimiters in their order of preference, in the 16 bits of the compiler, 0 without a colon; the buffer is as before |
| `VoltageCommand.DelimiterPreference` | 8367_fmd.c:2068-2082 | the number ends at the first semicolon wherever that is, without one at the first carriage return, then at the first line feed, and else at the end of the text |
| `VoltageCommand.NumberInText` | 8367_fmd.c:2089 | blanks and a sign before the digits, and anything but a digit behind them: the number is read with its sign |
| `VoltageCommand.DigitsOfDecimal` | 8367_fmd.c:2089 | reading the decimal digits of n back gives n |
| `VoltageCommand.CommandLineText` | stable_28_08_2025/final_8367_27_08_2025/2_8367_V1SB/rtl8367c/src/web/web_user.c:178 | the command line that is modelled is the text the switch sends |
| `VoltageCommand.SettingsText` | stable_28_08_2025/final_8367_27_08_2025/2_8367_V1SB/rtl8367c/src/web/web_user.c:178-240 | and so are the numbers in it |
| `VoltageCommand.CommandLineMeans` | 8367_fmd.c:2410-2412 | a buffer holding `set_POE_VOLT:<n>;` and a line end is recognised as the voltage command, not as a status query, and reads as n in 16 bits, for every n |
| `Receiver.Uart.OnByte` | 8367_fmd.c:1538-1557 | one byte interrupt has the specified effect and keeps: count at most 127, byte 127 zero, a completed line leaves the count at 0 |
| `Receiver.MainStep` | 8367_fmd.c:2061-2095 | every access of the main loop to the shared variables, from the first character comparison to the restoration of the saved character, keeps the same and stays inside the 128 bytes, and uses up a bounded budget of the parse |
| `Receiver.Run` | 8367_fmd.c:1534-1557 | so does every interleaving of byte interrupts and main-loop accesses |
| `Receiver.ParseEnds` | 8367_fmd.c:2061-2095 | no stream of interrupts keeps a parse from ending within 1010 of its own steps |
| `Receiver.ParseTouchesOneByte` | 8367_fmd.c:2083-2092 | up to the restoration, after any interleaving, reception stands as if nothing were parsed, except at the one position of the temporary NUL |
| `Receiver.RestorationExactlyWhen` | 8367_fmd.c:2083-2092 | after any interleaving the restoration puts the character saved by the `Save` step, which is what reception had there at that time, over what reception alone would have there now: a parse disturbs reception iff the bytes since that step have changed that position |
| `Receiver.AByteCanBeLost` | 8367_fmd.c:2083-2092 | from every conversion of a number that ends inside the buffer there is a run in which a received byte is lost |
| `Receiver.OvertakenParseReadsZero` | 8367_fmd.c:2061-2095 | a byte that arrives ahead of the search is read: one colon turns the value into 0 |
| `Receiver.InterleavedParse` | 8367_fmd.c:2061-2095 | if no byte that arrives changes a position the parse still depends on, the parse yields what the line called for as it stood when the parse began, and no byte is lost |
| `Receiver.BehindIsUnnoticed` | 8367_fmd.c:1542-1543 | bytes that land behind the parse are such bytes, and so are those stored over their equals, like the common beginning of the next command |
| `Receiver.Uart.Parse` | 8367_fmd.c:2061-2095 | the parse on the buffer itself, access by access with byte interrupts between, is that run |
| `Receiver.BytesPileUp` | 8367_fmd.c:1542-1543 | before the line feed the bytes lie in order at the front of the buffer |
| `Receiver.LineArrives` | 8367_fmd.c:1542-1551 | a line of at most 126 characters and a line feed ends up complete, intact and NUL-terminated |
| `Receiver.OverlongLineIsCut` | 8367_fmd.c:1542-1556 | of a longer line the first 127 characters stay, and its line feed completes it |
| `Receiver.ParseAlone` | 8367_fmd.c:2403-2412 | the stepwise parse, left alone, tells status queries, voltage commands and other lines apart, yields the value the text means and restores the buffer |
| `Receiver.OutcomeOfText` | 8367_fmd.c:2407-2410 | of the text of any buffer: it is answered iff characters 0, 4 and 5 are those of get_ST, executed iff characters 0, 4, 5 and 8 are those of set_PO..V, and ignored otherwise; every text that starts with get_ST is answered |
| `Receiver.WaitsForLine` | 8367_fmd.c:1538-1557 | while no line is complete, polling, delays and the execution of a command leave reception alone, however they are interleaved |
| `Receiver.LineKept` | 8367_fmd.c:2403-2404 | a completed line stays as it is, whatever arrives, until the main loop clears the flag |
| `Receiver.RoundSucceeds` | 8367_fmd.c:2403-2412 | a line is obeyed as it stood and the next one ends up complete in its place, although that one arrives while the first is parsed, without changing the text still to be read, and executed |
| `Receiver.RoundExists` | 8367_fmd.c:2403-2412 | from every waiting state with a complete line, and for every next line, there is such a round, in which the first line is waited for, parsed and its outcome reached |
| `PowerRails.Board.Put` | 8367_fmd.c:2304-2375 | every single write to an output pin leaves at most one rail selected, and selects one only while the output is switched off before and after |
| `PowerRails.SafeLogMeans` | 8367_fmd.c:2304-2375 | that is: among the pins of 30, 48 and 56 V never two are high, and one goes high only with the output switched off before and after |
| `PowerRails.CutsMean` | 8367_fmd.c:2427-2432 | the count of live cuts grows over a stretch of writes iff one of them takes a selected rail away under an enabled output |
| `PowerRails.Board.Boot` | 8367_fmd.c:2301-2377 | all writes of a boot are such writes, and it ends in the state the EEPROM calls for, the default case included |
| `PowerRails.Board.Command` | 8367_fmd.c:2411-2474 | the same for a command; exactly the commands that leave a switched rail for another voltage with the output enabled lower that rail under the enabled output, once |
| `PowerRails.Board.UpdateBattery` | 8367_fmd.c:2021-2059 | the battery bar replaces the high nibble and keeps the low one |
| `PowerRails.BatteryInNumbers` | 8367_fmd.c:2021-2059 | the bar has one, two, three or four LEDs from the ADC values 2075, 2185, 2288 and 2385 on, never shrinks as the value grows, and touches nothing else |
| `PowerRails.Board.Execute` | 8367_fmd.c:2390-2478 | the same for every run of commands, battery updates and reboots |
| `PowerRails.RunsAgree` | 8367_fmd.c:2301-2474 | after any boot and any run of commands for 0, 24, 30, 48 and 56 the stored voltage, the rail, the output enable and the LED agree on the last setting |
| `PowerRails.CommandAgreesExactlyWhen` | 8367_fmd.c:2413-2474 | for all commands: the agreement survives iff the value is one of the five or equals the stored one modulo 256 |
| `PowerRails.TruncatedCommandDisagrees` | 8367_fmd.c:2413 | the command 280 stores 24 while 48 V stays selected |
| `PowerRails.SettingSettles` | 8367_fmd.c:2414-2474 | a command for one of the five settles there from any state |
| `PowerRails.SettingsInNumbers` | 8367_fmd.c:2301-2474 | for each of the five settings: which rail, whether the output is on, which LED, the battery bar and the EEPROM, after a command and after a boot; and what a boot makes of any other stored voltage |
| `PowerRails.RebootReproduces` | 8367_fmd.c:2301-2377 | rebooting from an agreeing state reproduces its pins, EEPROM and voltage LED |
| `MainLoop.Controller.Pass` | 8367_fmd.c:2390-2478 | one pass, with bytes that arrive before the flag is looked at, between any two accesses of the parse, and during the execution, and with timer interrupts: the battery bar is updated every fifth time, the board does what the parse came to, the flag is cleared, all bytes are received, and the fan is fed the filtered measurement |
| `MainLoop.ReadingsSwitchTheFan` | 8367_fmd.c:2104-2256 | from the ADC to the fan: in the first pass and in every pass that reports a new temperature, a fan that stands still is switched on if and only if the twenty readings sum to at most 19819, and one that runs keeps running below 26017 |
| `MainLoop.LineObeyedInPass` | 8367_fmd.c:2403-2475 | what the parse of a pass comes to is what the line called for, and no byte is lost, if none changes the text still to be read |
| `MainLoop.LineObeyed` | 8367_fmd.c:2403-2475 | a completed command line commands exactly its number, in 16 bits |
| `MainLoop.CommandTakesEffect` | 8367_fmd.c:1534-2479 | end to end: the bytes of a command line that fits, interleaved with polling or with the execution of the command before, command its number in 16 bits, and for the five settings the board settles there |
| `MainLoop.QueryTakesEffect` | 8367_fmd.c:1534-2409 | end to end: a line that starts with get_ST, received while the main loop waits, is answered, and of the board it changes only the battery bar |
| `MainLoop.SwitchQueryIsLine` | stable_28_08_2025/final_8367_27_08_2025/2_8367_V1SB/common/src/app/snmp/msg_out.c:656 | the query that the switch sends is such a line |
| `MainLoop.EveryCommandObeyed` | 8367_fmd.c:2403-2475 | in every run of commands each one is obeyed, although the next may begin to arrive while it is parsed, without changing the text still to be read, and goes on arriving while it is executed |
| `MainLoop.RunsExist` | 8367_fmd.c:2403-2475 | such runs exist from every waiting state with a complete line and for every list of requests that fit the buffer |
| `MainLoop.RunSettles` | 8367_fmd.c:2403-2475 | so after any boot and any such run of the five settings, EEPROM, rail, output enable and LED agree on the last one executed |
| `MainLoop.LineIsOneLine` | 8367_fmd.c:1253 | a command line that fits the buffer holds no early line feed |
| `MainLoop.WordFits` | 8367_fmd.c:1253 | the command line of any 16-bit number fits |
| `StatusMessage.CalculateChecksum` | 8367_fmd.c:1903-1909 | the XOR of the first bytes |
| `StatusMessage.Transmitter.SendReliableMessage` | 8367_fmd.c:1912-1942 | exactly the framed message goes out |
| `StatusMessage.MessageBytes` | 8367_fmd.c:1903-1942 | byte by byte: a dollar sign, the length, the data, a byte each bit of which is set iff an odd number of data bytes have it, a hash sign, carriage return and line feed |
| `StatusMessage.FirstMessageIsUnique` | 8367_fmd.c:1912-1942 | the bytes that start with a message start with no other one, whatever bytes its data hold |
| `StatusMessage.StreamIsUnambiguous` | 8367_fmd.c:1912-1942 | the bytes of a run of messages determine the messages |
| `StatusMessage.MessagesTwoBytesApart` | 8367_fmd.c:1903-1942 | two messages for different data of one length differ in at least two bytes |
| `StatusMessage.ExchangeUnseen` | 8367_fmd.c:1903-1909 | and some in no more: exchanging any two data bytes of a message gives the message for the exchanged data |
| `Bytes.BigEndian` | stable_28_08_2025/final_8367_27_08_2025/2_8367_V1SB/common/include/lwps/lwps.h:70 | words lie most significant byte first, which is why `ntohs` is the identity |
| `Checksum.Compute` | stable_28_08_2025/final_8367_27_08_2025/2_8367_V1SB/common/src/lwps/icmp.c:169-187 | the checksum is the complement of the folded one's complement sum (section 1 of RFC 1071); the 32-bit sum never overflows for a 16-bit length |
| `Checksum.SumOfBytes` | stable_28_08_2025/final_8367_27_08_2025/2_8367_V1SB/common/src/lwps/icmp.c:174-181 | the sum counts the bytes at even offsets 256 times and those at odd ones once |
| `Checksum.Rfc1071Example` | stable_28_08_2025/final_8367_27_08_2025/2_8367_V1SB/common/src/lwps/icmp.c:169-187 | the example of section 3 of RFC 1071 comes out right |
| `Checksum.FoldCarries` | stable_28_08_2025/final_8367_27_08_2025/2_8367_V1SB/common/src/lwps/icmp.c:182-186 | the fold loop ends and preserves the sum modulo 65535 |
| `Checksum.OddActsAsPadded` | stable_28_08_2025/final_8367_27_08_2025/2_8367_V1SB/common/src/lwps/icmp.c:178-181 | an odd length acts as a padding zero byte |
| `Checksum.StoredChecksumVerifies` | stable_28_08_2025/final_8367_27_08_2025/2_8367_V1SB/common/src/lwps/icmp.c:228-229 | with the checksum stored at any aligned zero field, recomputing over the data gives 0 |
| `Checksum.BuildEcho` | stable_28_08_2025/final_8367_27_08_2025/2_8367_V1SB/common/src/lwps/icmp.c:204-229 | the echo request built in place verifies, is the bare request apart from its checksum, and no byte outside it is written |
| `Checksum.EchoBytes` | stable_28_08_2025/final_8367_27_08_2025/2_8367_V1SB/common/src/lwps/icmp.c:210-224 | the request has type 8, code 0, its identifier and sequence number, and 32 letters from a to w and again |
| `Checksum.DetectsWordErrorExactlyWhen` | stable_28_08_2025/final_8367_27_08_2025/2_8367_V1SB/common/src/lwps/icmp.c:169-187 | changing one aligned word of a verifying packet goes unnoticed iff it stays as it is or changes between 0 and 65535, and the packet is not all zero then |
| `EthTag.StrippedMeans` | stable_28_08_2025/final_8367_27_08_2025/2_8367_V1SB/common/src/lwps/eth.c:93-149 | stripping takes away the CPU tag, if there is one, and then a VLAN tag, if that is what comes next; the type of the result is the type behind the tags |
| `EthTag.TagsAreStripped` | stable_28_08_2025/final_8367_27_08_2025/2_8367_V1SB/common/src/lwps/eth.c:93-149 | byte by byte: a CPU tag of eight bytes that starts with 88 99 04, a VLAN tag of four that starts with 81 00, or both, are taken out from behind the addresses, and nothing else |
| `EthTag.LoopDetection` | stable_28_08_2025/final_8367_27_08_2025/2_8367_V1SB/common/src/lwps/eth.c:105-108 | the frames left alone are those of type 0x8899 and protocol 0x23 |
| `Moves.MovedUpMeans` | stable_28_08_2025/final_8367_27_08_2025/2_8367_V1SB/common/src/lwps/eth.c:140-143 | moving last byte first over an overlapping range loses no byte |
| `Moves.MovedDownMeans` | stable_28_08_2025/final_8367_27_08_2025/2_8367_V1SB/common/src/lwps/eth.c:403-413 | nor does moving first byte first the other way |
| `EthTag.PktBuf.Up` | stable_28_08_2025/final_8367_27_08_2025/2_8367_V1SB/common/src/lwps/eth.c:93-152 | for every frame that holds the fields read of it, the buffer then holds exactly the stripped frame, size and start are adjusted, the dispatch type is its type field and the CPU tag pointer set; nothing outside the frame is written; loop-detection frames are left alone |
| `EthTag.TagInsertedMeans` | stable_28_08_2025/final_8367_27_08_2025/2_8367_V1SB/common/src/lwps/eth.c:403-446 | the two overlapping moves and the tag writes make the tagged frame, with padding behind it, and touch nothing else |
| `EthTag.PktBuf.InsertTag` | stable_28_08_2025/final_8367_27_08_2025/2_8367_V1SB/common/src/lwps/eth.c:394-447 | the same for the packet buffer, its start and size |
| `EthTag.PktBuf.PrependHeader` | stable_28_08_2025/final_8367_27_08_2025/2_8367_V1SB/common/src/lwps/eth.c:314-322 | the Ethernet header, destination first, stands in front of the unchanged IP packet, and nothing else is written |
| `EthTag.PktBuf.Down` | stable_28_08_2025/final_8367_27_08_2025/2_8367_V1SB/common/src/lwps/eth.c:331-459 | the frame goes out tagged iff a VLAN id is known, VLANs are enabled and it is not a Realtek frame; only short IP frames gain padding; byte by byte the destination is the known next hop and the source the own address, then the tag, the type 0x0800 and the packet; the unsupported formats and unknown next hops are refused and change nothing; room is needed only for a tag that is inserted, and for exactly its padding |
| `EthTag.SendersHaveRoom` | stable_28_08_2025/final_8367_27_08_2025/2_8367_V1SB/common/src/lwps/eth.c:398-413 | where the senders put the IP header, 42 bytes into the buffer, there is room for tag and padding iff the packet has at least 22 bytes, which every IP packet with an ICMP, UDP or TCP header has |
| `EthTag.StrippingUndoesTagging` | stable_28_08_2025/final_8367_27_08_2025/2_8367_V1SB/common/src/lwps/eth.c:122-149 | stripping what tagging sent gives the frame back, followed by the padding only, for any frame with a header and whatever its type; the tag carries 0x8100 and the VLAN id |
| `Ipv6Walk.Up` | stable_28_08_2025/final_8367_27_08_2025/2_8367_V1SB/common/src/lwps/ipv6.c:94-140 | for every well-formed packet the walk ends, and reaches MLD iff the chain consists of the three skippable headers and ends in ICMPv6, with `l4` right behind the chain (sections 4.3, 4.4 and 4.6 of RFC 8200) |
| `Ipv6Walk.ChainIsLaid` | stable_28_08_2025/final_8367_27_08_2025/2_8367_V1SB/common/src/lwps/ipv6.c:109-125 | the chain the walk follows is laid out in the packet |
| `Ipv6Walk.ChainIsUnique` | stable_28_08_2025/final_8367_27_08_2025/2_8367_V1SB/common/src/lwps/ipv6.c:109-125 | and is the only one |
| `Ipv6Walk.HeadersAreWalked` | stable_28_08_2025/final_8367_27_08_2025/2_8367_V1SB/common/src/lwps/ipv6.c:94-140 | of a packet built header by header: it is walked to the end, MLD is reached iff the header there is 58, and right behind all bytes of the headers |
| `Ipv6Walk.InNextHdrList` | stable_28_08_2025/final_8367_27_08_2025/2_8367_V1SB/common/src/lwps/ipv6.c:111-124 | membership in the list of skippable headers |
| `ResetButton.Button.Tick` | stable_28_08_2025/final_8367_27_08_2025/2_8367_V1SB/rtl8367c/src/isr.c:188-263 | over every sample sequence without a factory reset, and for every reset time up to 65529, the soft reboot and the factory reset fire exactly when the whole sequence calls for them |
| `ResetButton.ActsWhenDue` | stable_28_08_2025/final_8367_27_08_2025/2_8367_V1SB/rtl8367c/src/isr.c:213-256 | the same of the wrapping variables themselves |
| `ResetButton.ResetMissed` | stable_28_08_2025/final_8367_27_08_2025/2_8367_V1SB/rtl8367c/src/isr.c:213-256 | for every reset time above 65529 there is a run in which a factory reset is due and the wrapped counter misses it |
| `ResetButton.SafeExactlyUpTo` | stable_28_08_2025/final_8367_27_08_2025/2_8367_V1SB/rtl8367c/a_set/include/local/config.h:138 | the firmware acts as due in all runs iff the reset time is at most 65529; the shipped value of 30 is |
| `ResetButton.PressBegan` | stable_28_08_2025/final_8367_27_08_2025/2_8367_V1SB/rtl8367c/src/isr.c:213-220 | when a press began: the unique pressed sample after an idle time since which there has been none |
| `ResetButton.SoftRebootMeans` | stable_28_08_2025/final_8367_27_08_2025/2_8367_V1SB/rtl8367c/src/isr.c:240-256 | the soft reboot is due exactly with six released samples after a pressed one, ending a press begun less than ten ticks before the first of them |
| `ResetButton.PlainPress` | stable_28_08_2025/final_8367_27_08_2025/2_8367_V1SB/rtl8367c/src/isr.c:213-256 | a plain press: the soft reboot comes with the sixth released sample iff it was held for less than ten ticks, the factory reset iff it is held for longer than the reset time |
| `ResetButton.BeganBeforeRelease` | stable_28_08_2025/final_8367_27_08_2025/2_8367_V1SB/rtl8367c/src/isr.c:250-251 | taking the debounce ticks back leads to the moment of release |
| `Tftp.ThisMemcmp` | stable_28_08_2025/final_8367_27_08_2025/2_8367_V1SB/rtl8367c/src/update.c:74-83 | zero iff the ranges agree, else the first difference modulo 256 |
| `Tftp.SentFields` | stable_28_08_2025/final_8367_27_08_2025/2_8367_V1SB/rtl8367c/src/update.c:33-49 | byte by byte, the headers of what the station sends: addresses, type, lengths, protocol, ports and the constant fields |
| `Tftp.RequestText` | stable_28_08_2025/final_8367_27_08_2025/2_8367_V1SB/rtl8367c/src/update.c:22-26 | the request is for final.bin in octet mode, and goes to port 69 |
| `Tftp.Updater.SendAck` | stable_28_08_2025/final_8367_27_08_2025/2_8367_V1SB/rtl8367c/src/update.c:148-189 | the acknowledgement built in the shared buffer is the specified frame |
| `Tftp.AnswerEchoes` | stable_28_08_2025/final_8367_27_08_2025/2_8367_V1SB/rtl8367c/src/update.c:148-189 | it goes to the port the block came from, carries that block's number, and its lengths are right (section 2 of RFC 1350) |
| `Tftp.FilterExactlyWhen` | stable_28_08_2025/final_8367_27_08_2025/2_8367_V1SB/rtl8367c/src/update.c:256-260 | the filter takes a frame iff it is IPv4 and UDP, for the station, for the port its own packets come from, and of opcode 3 |
| `Tftp.DataPacketTaken` | stable_28_08_2025/final_8367_27_08_2025/2_8367_V1SB/rtl8367c/src/update.c:256-272 | every DATA packet of the server is taken with its data, ends the transfer iff that is shorter than 512 bytes, and is acknowledged by its number to the port it came from |
| `Tftp.Updater.Handle` | stable_28_08_2025/final_8367_27_08_2025/2_8367_V1SB/rtl8367c/src/update.c:239-280 | one received frame: the filter, port, block number and length are those of the buffer it was received into, and the data is read from there on; a DATA packet is handed to the flash, accepted or not, and answered in place, anything else leaves flash and wire alone |
| `Tftp.FramesSpeak` | stable_28_08_2025/final_8367_27_08_2025/2_8367_V1SB/rtl8367c/src/update.c:239-280 | with frames that bring all headers and the data they announce, what is written and sent is decided by the frames alone, never by what an earlier one or an outgoing packet left in the buffer |
| `Tftp.Updater.Transfer` | stable_28_08_2025/final_8367_27_08_2025/2_8367_V1SB/rtl8367c/src/update.c:191-282 | for every receive stream: the flash is what writing the payloads of the DATA packets seen, up to the first short one, one behind the other makes of it, the returned size is their 32-bit total, one acknowledgement per block in order follows the request, and the loop stops exactly at the first short block |
| `Tftp.ChunksJoin` | stable_28_08_2025/final_8367_27_08_2025/2_8367_V1SB/rtl8367c/src/update.c:270-273 | the blocks of a file, joined, are the file |
| `Tftp.DownloadExactWithoutRepeats` | stable_28_08_2025/final_8367_27_08_2025/2_8367_V1SB/rtl8367c/src/update.c:261-270 | with blocks arriving in order, possibly repeated and mixed with anything else, and whatever the buffer held before, what is written is the file, block by block, iff none arrives twice |
| `Tftp.DownloadAsServed` | stable_28_08_2025/final_8367_27_08_2025/2_8367_V1SB/rtl8367c/src/update.c:191-282 | a file served block by block, whatever the buffer held: what is written is the file, the acknowledgements carry the numbers of the blocks in order, and the last block ends the transfer |
| `Tftp.FileIsServed` | stable_28_08_2025/final_8367_27_08_2025/2_8367_V1SB/rtl8367c/src/update.c:261-273 | the frames a server builds from a file are such a stream |
| `Flash.Chip.Write` | stable_28_08_2025/final_8367_27_08_2025/2_8367_V1SB/rtl8367c/src/drivers/SPIFLashDrv_wrapper.c:67-108 | a write is refused, and changes nothing, iff it reaches beyond the chip or touches a protected region |
| `Flash.AcceptedExactlyWhen` | stable_28_08_2025/final_8367_27_08_2025/2_8367_V1SB/rtl8367c/src/drivers/SPIFLashDrv_wrapper.c:75-92 | that is: iff it ends within the chip and none of its cells is protected |
| `Flash.LoadedAt` | stable_28_08_2025/final_8367_27_08_2025/2_8367_V1SB/rtl8367c/src/drivers/SPIFLashDrv_wrapper.c:67-108 | after writing parts one behind the other every cell holds the byte of the accepted part that covers it, or what it held before |
| `Tftp.FileInFlash` | stable_28_08_2025/final_8367_27_08_2025/2_8367_V1SB/rtl8367c/src/update.c:269-270 | after a download a cell holds the byte of the file iff it is not protected and its block fits the chip, and what it held before otherwise, although every block is acknowledged |
| `Tftp.FlashHoldsFileExactlyWhen` | stable_28_08_2025/final_8367_27_08_2025/2_8367_V1SB/rtl8367c/src/update.c:269-270 | for a file that fits, the flash holds it iff it already held what of it is protected |
| `Tftp.ShippedRegionsStay` | stable_28_08_2025/final_8367_27_08_2025/2_8367_V1SB/rtl8367c/a_set/include/local/flash_config.h:314-316 | with the shipped regions no download changes the first 4096 bytes of the flash, or those from 0x4000 to 0x1BFFF |
| `Tftp.RetransmissionIsWrittenTwice` | stable_28_08_2025/final_8367_27_08_2025/2_8367_V1SB/rtl8367c/src/update.c:264-265 | a retransmitted full block appears twice in what is written |
| `Mdio.Bus.Write` | stable_28_08_2025/final_8367_27_08_2025/2_8367_V1SB/rtl8367c/src/mdcmdio.c:36-72 | the bits at the rising clock edges of a write are the frame of section 22.2.4.5 of IEEE 802.3 with 32 ones |
| `Mdio.WriteFrameBits` | stable_28_08_2025/final_8367_27_08_2025/2_8367_V1SB/rtl8367c/src/mdcmdio.c:36-72 | bit by bit: 32 ones, 01, 01, five bits of each address, 10, and the sixteen data bits, most significant first |
| `Mdio.Bus.Read` | stable_28_08_2025/final_8367_27_08_2025/2_8367_V1SB/rtl8367c/src/mdcmdio.c:74-123 | those of a read are the frame with 31 ones and then what the bus drives; the result is the sixteen bits behind the turn-around |
| `Mdio.ReadFrameBits` | stable_28_08_2025/final_8367_27_08_2025/2_8367_V1SB/rtl8367c/src/mdcmdio.c:74-103 | bit by bit: 31 ones, 01, 10, and five bits of each address |
| `Mdio.ReadIsOneShort` | stable_28_08_2025/final_8367_27_08_2025/2_8367_V1SB/rtl8367c/src/mdcmdio.c:74-123 | with two bits of turn-around and sixteen of data a read has 63 bits, not 64 |
| `Mdio.WriteStores` | stable_28_08_2025/final_8367_27_08_2025/2_8367_V1SB/rtl8367c/src/mdcmdio.c:36-72 | a PHY that has seen enough ones stores the data at the addresses modulo 32 |
| `Mdio.ReadFetches` | stable_28_08_2025/final_8367_27_08_2025/2_8367_V1SB/rtl8367c/src/mdcmdio.c:74-123 | and a read returns the register |
| `Mdio.ReadReturnsLastWritten` | stable_28_08_2025/final_8367_27_08_2025/2_8367_V1SB/rtl8367c/src/mdcmdio.c:36-123 | with PHYs that accept 31 ones, after any run of writes and reads a read returns the last value written to that PHY and register |
| `Mdio.ReadBackExactlyWhen` | stable_28_08_2025/final_8367_27_08_2025/2_8367_V1SB/rtl8367c/src/mdcmdio.c:78-82 | reading back a write works for all values iff the PHYs accept 31 ones |
| `Mdio.ReadMissed` | stable_28_08_2025/final_8367_27_08_2025/2_8367_V1SB/rtl8367c/src/mdcmdio.c:78-82 | a PHY that insists on 32 misses a read that follows a frame, and 0xFFFF is returned |
| `Mdio.SecondReadSucceeds` | stable_28_08_2025/final_8367_27_08_2025/2_8367_V1SB/rtl8367c/src/mdcmdio.c:104-118 | the next read succeeds, because the pulled-up line completed its preamble |
| `Mdio.StrictReadReturns` | stable_28_08_2025/final_8367_27_08_2025/2_8367_V1SB/rtl8367c/src/mdcmdio.c:36-123 | with PHYs that insist on 32 ones, after any run of writes and reads a read returns the last value written if it is answered and 0xFFFF if not |
| `Mdio.EveryOtherReadAnswered` | stable_28_08_2025/final_8367_27_08_2025/2_8367_V1SB/rtl8367c/src/mdcmdio.c:78-118 | of the reads that follow a write the second, the fourth and so on are answered, the others not |

## Left out

- Floating point: temperatures and voltages are reals; rounding is not modelled.
- VoltageCommand.ExtractAndConvert: a number outside the 16 bits of `int` is undefined for `atoi`; here it is taken modulo 2^16.
- Receiver.MainStep: each access to a shared variable is one step, all of them bytes or bits; the order is that of the source text.
- MainLoop.Controller.Pass: the control task is one step in it, with the timer interrupts before it; interrupts between its accesses are the subject of `FanSteps`.
- FanControl.FanController.ControlTask: one step; `FanSteps` has it access by access, with the three counters cleared minutes first, as the chained assignment is evaluated.
- PowerRails.Board.constructor: the pins before `POWER_INITIAL` are not modelled, nor are the pin directions; the 30 V select and the discharge pin are one latch bit, as in the source.
- ResetButton.Button.Tick: after a factory reset the device restarts, so nothing is stated about the variables.
- EthTag.PktBuf.Up: the source reads the protocol byte of a vendor frame and the type behind each tag it finds without looking at the size, so the frame must reach that far. The RTL8367C branch is compiled in, with its CPU tag of 8 bytes. What `sal_nic_rxPort_set` and `sal_nic_rxVid_set` note of the tags is not modelled.
- EthTag.PktBuf.Down: the ARP table and the NIC's VLAN id are arguments; the padding holds whatever the buffer held there. `ntohs` is the identity, so words are big-endian.
- Ipv6Walk.Up: packets whose extension headers run past the end are excluded; the source does not look at the length. MLD itself is not part of this model, and its support is compiled in.
- Checksum.BuildEcho: the ping client is compiled in (`LWPS_ICMP_PING_CLIENT` defaults to 0); the ARP check before it and `ip_down` after it are not modelled; words are stored big-endian.
- Tftp.Updater.Transfer: data longer than the buffer is read on into memory whose contents are an argument; `rxPkt` and `txPkt` are modelled by their effect, and the endless polling by the finite stream of what it receives. No source file of the repository calls `update_firmware`.
- Flash.Chip.Write: a write of erased cells; that writing can only clear bits, the 256-byte pages and the bank-switched driver behind them are not modelled, nor is the NOR flash.
- Tftp.RetransmissionIsWrittenTwice: the last block has a UDP length of at least 12, as every DATA packet of RFC 1350 has.
- Tftp.Updater.SendRequest: the checksums of IPv4 and UDP are sent as the template's 0xFFFF; whether hardware fills them in is not modelled.
- Mdio.Next: all PHYs share one decoder and one register file, a register holds what was written, and no PHY drives the line while the master does.
- Delays, UART waits, oscillator, ADC, timer and UART setup, the EEPROM unlock sequence and the bit timing of the LED shift register: hardware access.
- The JSON line after the status message, the print flags and the one-second tick: output only.
- ARP resolution before the download and the flash erasing: not part of this model.
- `timer_0_isr`, the second tick and the port polling of `isr.c`: counters that only set event bits.
- `test_mdio` and the I2C routines beside it: repetitions of the modelled primitives.
- The flash copy, the UART line assembly of the switch, SerDes, fiber, ACL, meter, web pages, SNMP and RSTP: register sequences, HTML or declarations without visible semantics.
