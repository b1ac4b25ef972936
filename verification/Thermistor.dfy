/**
 `read_battery_voltage` and `voltage_to_temperature`: the mean of twenty ADC readings,
 scaled to volts, is turned into a temperature by linear interpolation in a table.
 Floats are reals.
 */
module Thermistor {

  // ---------------------------------------------------------------------------
  // Interpolation in any descending table
  // ---------------------------------------------------------------------------

  /** Entry `i` of a table is the voltage at `25 + i` degrees. */
  function Temp(i: nat): real {
    25.0 + i as real
  }

  ghost predicate Descending(v: seq<real>) {
    && |v| >= 2
    && forall i, j :: 0 <= i < j < |v| ==> v[i] > v[j]
  }

  predicate InSegment(v: seq<real>, i: nat, volt: real) {
    i + 1 < |v| && v[i + 1] <= volt <= v[i]
  }

  ghost function Interpolate(v: seq<real>, i: nat, volt: real): real
    requires Descending(v) && i + 1 < |v|
  {
    Temp(i) + (v[i] - volt) / (v[i] - v[i + 1])
  }

  /**
   `temp` is the reading at `volt`: clamped outside the table, and inside it equal to what
   every segment that contains `volt` says.
   */
  ghost predicate OnCurve(v: seq<real>, volt: real, temp: real)
    requires Descending(v)
  {
    && (volt > v[0] ==> temp == Temp(0))
    && (volt < v[|v| - 1] ==> temp == Temp(|v| - 1))
    && (forall i: nat :: InSegment(v, i, volt) ==> temp == Interpolate(v, i, volt))
  }

  method VoltageToTemperature(v: seq<real>, volt: real) returns (temp: real)
    requires Descending(v)
    ensures OnCurve(v, volt, temp)
  {
    if volt > v[0] {
      return Temp(0);
    }
    if volt < v[|v| - 1] {
      return Temp(|v| - 1);
    }
    for i := 0 to |v| - 1
      invariant volt <= v[i] && (i > 0 ==> volt != v[i])
    {
      var v1, v2 := v[i], v[i + 1];
      if volt <= v1 && volt >= v2 {
        var t1, t2 := Temp(i), Temp(i + 1);
        assert t2 - t1 == 1.0 && (v1 - volt) * (t2 - t1) == v1 - volt;
        temp := t1 + ((v1 - volt) * (t2 - t1)) / (v1 - v2);
        assert temp == Interpolate(v, i, volt);
        SegmentsAgree(v, i, volt);
        return;
      }
    }
    // The source falls back to the last entry here and notes that this should never happen.
    assert false;
  }

  lemma FractionBounds(part: real, width: real)
    requires 0.0 <= part <= width && 0.0 < width
    ensures 0.0 <= part / width <= 1.0
    ensures part / width == 0.0 <==> part == 0.0
    ensures part / width == 1.0 <==> part == width
  {
    assert part / width * width == part;
  }

  /** A segment reads its own temperatures at its ends and only there. */
  lemma SegmentEnds(v: seq<real>, i: nat, volt: real)
    requires Descending(v) && InSegment(v, i, volt)
    ensures Temp(i) <= Interpolate(v, i, volt) <= Temp(i + 1)
    ensures Interpolate(v, i, volt) == Temp(i) <==> volt == v[i]
    ensures Interpolate(v, i, volt) == Temp(i + 1) <==> volt == v[i + 1]
  {
    FractionBounds(v[i] - volt, v[i] - v[i + 1]);
  }

  /** Segments that share a voltage give it the same temperature. */
  lemma SegmentsAgree(v: seq<real>, i: nat, volt: real)
    requires Descending(v) && InSegment(v, i, volt)
    ensures OnCurve(v, volt, Interpolate(v, i, volt))
  {
    SegmentEnds(v, i, volt);
    forall j: nat | InSegment(v, j, volt) ensures Interpolate(v, j, volt) == Interpolate(v, i, volt) {
      SegmentEnds(v, j, volt);
    }
  }

  lemma {:induction false} FindSegment(v: seq<real>, volt: real, n: nat) returns (i: nat)
    requires Descending(v) && 0 < n < |v| && v[n] <= volt <= v[0]
    ensures i < n && InSegment(v, i, volt)
    decreases n
  {
    if volt <= v[n - 1] {
      i := n - 1;
    } else {
      i := FindSegment(v, volt, n - 1);
    }
  }

  lemma PartOfWidth(part: real, width: real) returns (drop: real)
    requires 0.0 <= part <= 1.0 && 0.0 < width
    ensures drop == part * width && 0.0 <= drop <= width && drop / width == part
  {
    drop := part * width;
  }

  lemma ReadingAt(v: seq<real>, i: nat, drop: real)
    requires Descending(v) && i + 1 < |v| && 0.0 <= drop <= v[i] - v[i + 1]
    ensures OnCurve(v, v[i] - drop, Temp(i) + drop / (v[i] - v[i + 1]))
  {
    SegmentsAgree(v, i, v[i] - drop);
  }

  /** Between two entries the reading is linear in the voltage. */
  lemma LinearBetween(v: seq<real>, i: nat, part: real)
    requires Descending(v) && i + 1 < |v| && 0.0 <= part <= 1.0
    ensures OnCurve(v, v[i] - part * (v[i] - v[i + 1]), 25.0 + i as real + part)
  {
    hide OnCurve;
    var drop := PartOfWidth(part, v[i] - v[i + 1]);
    ReadingAt(v, i, drop);
  }

  /** No voltage has two readings, and every reading lies between the ends of the table. */
  lemma ReadingIsUniqueAndBounded(v: seq<real>, volt: real, temp: real, other: real)
    requires Descending(v) && OnCurve(v, volt, temp) && OnCurve(v, volt, other)
    ensures temp == other && Temp(0) <= temp <= Temp(|v| - 1)
  {
    if v[|v| - 1] <= volt <= v[0] {
      var i := FindSegment(v, volt, |v| - 1);
      SegmentEnds(v, i, volt);
    }
  }

  lemma ExactAtEntries(v: seq<real>, i: nat)
    requires Descending(v) && i < |v|
    ensures OnCurve(v, v[i], Temp(i))
  {
    var k := if i + 1 < |v| then i else i - 1;
    SegmentEnds(v, k, v[i]);
    SegmentsAgree(v, k, v[i]);
  }

  /** A lower voltage never reads colder, and reads strictly hotter between the ends of the table. */
  lemma HotterWhenLower(v: seq<real>, low: real, high: real, hotter: real, colder: real)
    requires Descending(v) && low <= high && OnCurve(v, low, hotter) && OnCurve(v, high, colder)
    ensures hotter >= colder
    ensures low < high && v[|v| - 1] <= low && high <= v[0] ==> hotter > colder
  {
    ReadingIsUniqueAndBounded(v, low, hotter, hotter);
    ReadingIsUniqueAndBounded(v, high, colder, colder);
    if v[|v| - 1] <= low && high <= v[0] {
      var i := FindSegment(v, low, |v| - 1);
      var j := FindSegment(v, high, |v| - 1);
      SegmentEnds(v, i, low);
      SegmentEnds(v, j, high);
      if i == j {
        SameSegment(v[i] - low, v[i] - high, v[i] - v[i + 1]);
      }
    }
  }

  lemma SameSegment(a: real, b: real, width: real)
    requires b <= a && 0.0 < width
    ensures b / width <= a / width
    ensures b < a ==> b / width < a / width
  {
    assert a / width * width == a && b / width * width == b;
  }

  // ---------------------------------------------------------------------------
  // The firmware's table, 25 to 70 degrees
  // ---------------------------------------------------------------------------

  const TABLE_SIZE := 46

  function Volt(i: nat): real {
    match i
    case 0 => 1.534 case 1 => 1.511 case 2 => 1.488 case 3 => 1.465 case 4 => 1.431 case 5 => 1.409
    case 6 => 1.386 case 7 => 1.363 case 8 => 1.341 case 9 => 1.318 case 10 => 1.295 case 11 => 1.273
    case 12 => 1.250 case 13 => 1.227 case 14 => 1.204 case 15 => 1.181 case 16 => 1.158 case 17 => 1.136
    case 18 => 1.113 case 19 => 1.090 case 20 => 1.067 case 21 => 1.044 case 22 => 1.022 case 23 => 0.999
    case 24 => 0.976 case 25 => 0.953 case 26 => 0.931 case 27 => 0.908 case 28 => 0.885 case 29 => 0.862
    case 30 => 0.840 case 31 => 0.817 case 32 => 0.794 case 33 => 0.771 case 34 => 0.749 case 35 => 0.726
    case 36 => 0.703 case 37 => 0.680 case 38 => 0.658 case 39 => 0.635 case 40 => 0.612 case 41 => 0.582
    case 42 => 0.564 case 43 => 0.546 case 44 => 0.528 case _ => 0.509
  }

  function Table(): seq<real> {
    seq(TABLE_SIZE, i requires 0 <= i < TABLE_SIZE => Volt(i))
  }

  lemma VoltStep(i: nat)
    requires i + 1 < TABLE_SIZE
    ensures Volt(i) > Volt(i + 1)
  {
  }

  lemma {:induction false} VoltsDescend(i: nat, j: nat)
    requires i < j < TABLE_SIZE
    ensures Volt(i) > Volt(j)
    decreases j - i
  {
    VoltStep(i);
    if i + 1 < j {
      VoltsDescend(i + 1, j);
    }
  }

  lemma TableDescends()
    ensures Descending(Table())
  {
    forall i, j | 0 <= i < j < TABLE_SIZE ensures Table()[i] > Table()[j] {
      VoltsDescend(i, j);
    }
  }

  lemma ThresholdAtEntry(v: seq<real>, i: nat, volt: real, temp: real)
    requires Descending(v) && 0 < i < |v| - 1 && OnCurve(v, volt, temp)
    ensures temp >= Temp(i) <==> volt <= v[i]
    ensures temp <= Temp(i) <==> volt >= v[i]
  {
    ExactAtEntries(v, i);
    if volt < v[i] {
      HotterWhenLower(v, volt, v[i], temp, Temp(i));
    } else if volt > v[i] {
      HotterWhenLower(v, v[i], volt, Temp(i), temp);
    } else {
      ReadingIsUniqueAndBounded(v, volt, temp, Temp(i));
    }
  }

  // ---------------------------------------------------------------------------
  // The averaged ADC reading
  // ---------------------------------------------------------------------------

  const ADC_SAMPLES := 20

  function Sum(readings: seq<nat>): nat {
    if readings == [] then 0 else Sum(readings[..|readings| - 1]) + readings[|readings| - 1]
  }

  /** `readings` are the 12-bit values that the ADC returns in turn. */
  method ReadVoltage(readings: seq<nat>) returns (volt: real)
    requires |readings| == ADC_SAMPLES && forall i :: 0 <= i < |readings| ==> readings[i] < 0x1000
    ensures volt * 27300.0 == Sum(readings) as real
    ensures 0.0 <= volt <= 3.0
  {
    var sum := 0;
    for i := 0 to ADC_SAMPLES
      invariant sum == Sum(readings[..i]) <= 0xFFF * i
    {
      assert readings[..i + 1][..i] == readings[..i];
      sum := sum + readings[i];
    }
    assert readings[..ADC_SAMPLES] == readings;
    var average := sum as real / ADC_SAMPLES as real;
    volt := (average * 3.0) / 4095.0;
  }

  /** The two fan thresholds, 60 and 50 degrees, as sums of the twenty readings. */
  lemma FanThresholdSums(v: seq<real>, readings: seq<nat>, volt: real, temp: real)
    requires volt * 27300.0 == Sum(readings) as real
    requires v == Table() && Descending(v) && OnCurve(v, volt, temp)
    ensures temp >= 60.0 <==> Sum(readings) <= 19819
    ensures temp <= 50.0 <==> Sum(readings) >= 26017
  {
    ThresholdAtEntry(v, 35, volt, temp);
    ThresholdAtEntry(v, 25, volt, temp);
  }

  const TEMP_HIGH_V := 0.650
  const TEMP_LOW_V := 1.000

  /** The two unused macros, said to stand for 60 and 40 degrees, are other readings. */
  lemma MacrosDisagree(v: seq<real>, high: real, low: real)
    requires v == Table() && Descending(v) && OnCurve(v, TEMP_HIGH_V, high) && OnCurve(v, TEMP_LOW_V, low)
    ensures 63.0 < high < 64.0 && 47.0 < low < 48.0
  {
    ThresholdAtEntry(v, 38, TEMP_HIGH_V, high);
    ThresholdAtEntry(v, 39, TEMP_HIGH_V, high);
    ThresholdAtEntry(v, 22, TEMP_LOW_V, low);
    ThresholdAtEntry(v, 23, TEMP_LOW_V, low);
  }
}
