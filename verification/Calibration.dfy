/**
 `ADC_Calibration`: the correction added to a raw ADC value is found by a binary
 search, on 8-bit indices, for the last range-table entry not above the value.
 */
module Calibration {
  import opened Bytes

  const SIZE := 64

  /** What the search needs from a range table: 64 non-decreasing entries, the first of them 0. */
  ghost predicate IsRangeTable(range: seq<word>) {
    && |range| == SIZE
    && range[0] == 0
    && forall i, j :: 0 <= i <= j < SIZE ==> range[i] <= range[j]
  }

  /** `i` is the greatest index whose entry does not exceed `val`. */
  ghost predicate IsFloor(range: seq<word>, val: word, i: int) {
    && 0 <= i < |range|
    && range[i] <= val
    && forall j :: i < j < |range| ==> val < range[j]
  }

  method Calibrate(range: seq<word>, inl: seq<byte>, val: word) returns (corrected: word)
    requires IsRangeTable(range) && |inl| == SIZE
    ensures exists i :: IsFloor(range, val, i) && corrected == (val + inl[i]) % 0x1_0000
  {
    var left: byte, right: byte := 0, 63;
    while left <= right
      invariant left <= right + 1 <= SIZE
      invariant forall j :: 0 <= j < left ==> range[j] <= val
      invariant forall j :: right < j < SIZE ==> val < range[j]
      decreases right + 1 - left
    {
      var mid: byte := (left + right) / 2;
      if range[mid] > val {
        right := mid - 1;
      } else {
        left := mid + 1;
      }
    }
    assert IsFloor(range, val, left - 1);
    corrected := (val + inl[left - 1]) % 0x1_0000;
  }

  // ---------------------------------------------------------------------------
  // Shape of the corrected value
  // ---------------------------------------------------------------------------

  /** How far the correction falls from entry `i` to entry `j`; negative when it rises. */
  ghost function Drop(inl: seq<byte>, i: nat, j: nat): int
    requires i < |inl| && j < |inl|
  {
    inl[i] as int - inl[j] as int
  }

  /** From one entry to the next the correction drops by at most 1 and by no more than the entries are apart. */
  ghost predicate DropsGently(range: seq<word>, inl: seq<byte>) {
    && |range| == |inl| == SIZE
    && forall i :: 0 <= i < SIZE - 1 ==> IsGentle(range, inl, i)
  }

  ghost predicate IsGentle(range: seq<word>, inl: seq<byte>, i: nat)
    requires i + 1 < |range| && i + 1 < |inl|
  {
    && Drop(inl, i, i + 1) <= 1
    && Drop(inl, i, i + 1) <= range[i + 1] as int - range[i] as int
  }

  lemma {:induction false} DropWithinDistance(range: seq<word>, inl: seq<byte>, i: nat, j: nat)
    requires DropsGently(range, inl) && i <= j < SIZE
    ensures Drop(inl, i, j) <= range[j] as int - range[i] as int
    decreases j - i
  {
    if i < j {
      assert IsGentle(range, inl, i);
      DropWithinDistance(range, inl, i + 1, j);
    }
  }

  /** A larger raw value is never corrected to a smaller one. */
  lemma CorrectionIsMonotone(range: seq<word>, inl: seq<byte>, v: word, i: nat, w: word, j: nat)
    requires IsRangeTable(range) && DropsGently(range, inl)
    requires v <= w && IsFloor(range, v, i) && IsFloor(range, w, j)
    ensures v + inl[i] <= w + inl[j]
  {
    if i < j {
      assert IsGentle(range, inl, i);
      DropWithinDistance(range, inl, i + 1, j);
    } else {
      assert i == j;
    }
  }

  // ---------------------------------------------------------------------------
  // The tables of the firmware
  // ---------------------------------------------------------------------------

  /** The four supply and reference voltages that have tables; `E_OTHER` has none. */
  datatype Config = Vdd5Vref5 | Vdd5Vref3 | Vdd3Vref3 | Vdd5Vref2

  function RangeVdd5Vref5(i: nat): word {
    match i
    case 0 => 0x000 case 1 => 0x017 case 2 => 0x036 case 3 => 0x05A case 4 => 0x07B case 5 => 0x0A3
    case 6 => 0x0CE case 7 => 0x0F2 case 8 => 0x11D case 9 => 0x14F case 10 => 0x175 case 11 => 0x19C
    case 12 => 0x1D2 case 13 => 0x22F case 14 => 0x25C case 15 => 0x296 case 16 => 0x2CE case 17 => 0x310
    case 18 => 0x350 case 19 => 0x392 case 20 => 0x3D8 case 21 => 0x431 case 22 => 0x496 case 23 => 0x514
    case 24 => 0x594 case 25 => 0x652 case 26 => 0x7FF case 27 => 0x908 case 28 => 0x9C7 case 29 => 0xA7F
    case 30 => 0xAE7 case 31 => 0xB3F case 32 => 0xB8F case 33 => 0xBEF case 34 => 0xC49 case 35 => 0xCA2
    case 36 => 0xCE8 case 37 => 0xD27 case 38 => 0xD69 case 39 => 0xDB7 case 40 => 0xDF1 case 41 => 0xDFF
    case 42 => 0xE13 case 43 => 0xE4F case 44 => 0xE8D case 45 => 0xECF case 46 => 0xF05 case 47 => 0xF41
    case 48 => 0xF7D case 49 => 0xFAB case 50 => 0xFE7
    case _ => 0xFFFF
  }

  function RangeVdd5Vref3(i: nat): word {
    match i
    case 0 => 0x000 case 1 => 0x01A case 2 => 0x054 case 3 => 0x087 case 4 => 0x0B8 case 5 => 0x0F6
    case 6 => 0x13D case 7 => 0x179 case 8 => 0x1B7 case 9 => 0x24F case 10 => 0x297 case 11 => 0x2DA
    case 12 => 0x337 case 13 => 0x397 case 14 => 0x3F7 case 15 => 0x493 case 16 => 0x51B case 17 => 0x5BA
    case 18 => 0x6B1 case 19 => 0x7FE case 20 => 0x9C7 case 21 => 0xAE5 case 22 => 0xB6B case 23 => 0xC09
    case 24 => 0xC87 case 25 => 0xCEF case 26 => 0xD47 case 27 => 0xDA8 case 28 => 0xDFA case 29 => 0xDFF
    case 30 => 0xE27 case 31 => 0xE71 case 32 => 0xEC3 case 33 => 0xF07 case 34 => 0xF4B case 35 => 0xF8D
    case 36 => 0xFE2
    case _ => 0xFFFF
  }

  function RangeVdd3Vref3(i: nat): word {
    match i
    case 0 => 0x000 case 1 => 0x01A case 2 => 0x058 case 3 => 0x097 case 4 => 0x0DA case 5 => 0x12D
    case 6 => 0x16D case 7 => 0x1B8 case 8 => 0x257 case 9 => 0x2A7 case 10 => 0x315 case 11 => 0x375
    case 12 => 0x3DC case 13 => 0x476 case 14 => 0x51F case 15 => 0x5E6 case 16 => 0x7B6 case 17 => 0x7FE
    case 18 => 0x908 case 19 => 0xA85 case 20 => 0xB41 case 21 => 0xBE7 case 22 => 0xC88 case 23 => 0xD01
    case 24 => 0xD6D case 25 => 0xDE3 case 26 => 0xDFF case 27 => 0xE0F case 28 => 0xE6F case 29 => 0xEC7
    case 30 => 0xF23 case 31 => 0xF7D case 32 => 0xFCD
    case _ => 0xFFFF
  }

  function RangeVdd5Vref2(i: nat): word {
    match i
    case 0 => 0x000 case 1 => 0x023 case 2 => 0x073 case 3 => 0x0BF case 4 => 0x121 case 5 => 0x179
    case 6 => 0x237 case 7 => 0x298 case 8 => 0x31A case 9 => 0x396 case 10 => 0x438 case 11 => 0x4E2
    case 12 => 0x5D5 case 13 => 0x758 case 14 => 0x7FE case 15 => 0xA3D case 16 => 0xB47 case 17 => 0xC48
    case 18 => 0xCFF case 19 => 0xD81 case 20 => 0xDFF case 21 => 0xE00 case 22 => 0xE2C case 23 => 0xEA8
    case 24 => 0xF04 case 25 => 0xF60 case 26 => 0xFC7
    case _ => 0xFFFF
  }

  function RangeEntry(c: Config, i: nat): word {
    match c
    case Vdd5Vref5 => RangeVdd5Vref5(i)
    case Vdd5Vref3 => RangeVdd5Vref3(i)
    case Vdd3Vref3 => RangeVdd3Vref3(i)
    case Vdd5Vref2 => RangeVdd5Vref2(i)
  }

  /** Each INL table climbs by 1 to its peak, descends by 1 to 0 and stays there. */
  function InlEntry(c: Config, i: nat): byte {
    var peak := match c case Vdd5Vref5 => 25 case Vdd5Vref3 => 18 case Vdd3Vref3 => 16 case Vdd5Vref2 => 13;
    if i <= peak then i else if i <= 2 * peak then 2 * peak - i else 0
  }

  function RangeTable(c: Config): seq<word> {
    seq(SIZE, i requires 0 <= i < SIZE => RangeEntry(c, i))
  }

  function InlTable(c: Config): seq<byte> {
    seq(SIZE, i requires 0 <= i < SIZE => InlEntry(c, i))
  }

  /** Entries `i` and `i + 1` of one configuration are in order and the correction drops gently between them. */
  predicate StepIsGentle(c: Config, i: nat) {
    && RangeEntry(c, i) <= RangeEntry(c, i + 1)
    && InlEntry(c, i) <= InlEntry(c, i + 1) + 1
    && InlEntry(c, i) + RangeEntry(c, i) <= InlEntry(c, i + 1) + RangeEntry(c, i + 1)
  }

  lemma StepVdd5Vref5(i: nat)
    ensures StepIsGentle(Vdd5Vref5, i)
  {
  }

  lemma StepVdd5Vref3(i: nat)
    ensures StepIsGentle(Vdd5Vref3, i)
  {
  }

  lemma StepVdd3Vref3(i: nat)
    ensures StepIsGentle(Vdd3Vref3, i)
  {
  }

  lemma StepVdd5Vref2(i: nat)
    ensures StepIsGentle(Vdd5Vref2, i)
  {
  }

  lemma EntryStep(c: Config, i: nat)
    ensures StepIsGentle(c, i)
  {
    match c
    case Vdd5Vref5 => StepVdd5Vref5(i);
    case Vdd5Vref3 => StepVdd5Vref3(i);
    case Vdd3Vref3 => StepVdd3Vref3(i);
    case Vdd5Vref2 => StepVdd5Vref2(i);
  }

  lemma {:induction false} EntriesAscend(c: Config, i: nat, j: nat)
    requires i <= j < SIZE
    ensures RangeEntry(c, i) <= RangeEntry(c, j)
    decreases j - i
  {
    if i < j {
      EntryStep(c, i);
      EntriesAscend(c, i + 1, j);
    }
  }

  lemma TablesAreWellFormed(c: Config)
    ensures IsRangeTable(RangeTable(c)) && DropsGently(RangeTable(c), InlTable(c))
  {
    forall i, j | 0 <= i <= j < SIZE ensures RangeTable(c)[i] <= RangeTable(c)[j] {
      EntriesAscend(c, i, j);
    }
    forall i | 0 <= i < SIZE - 1
      ensures IsGentle(RangeTable(c), InlTable(c), i)
    {
      EntryStep(c, i);
    }
  }

  lemma FloorAt(c: Config, v: word, i: nat)
    requires i + 1 < SIZE && RangeEntry(c, i) <= v < RangeEntry(c, i + 1)
    ensures IsFloor(RangeTable(c), v, i)
  {
    forall j | i < j < SIZE ensures v < RangeTable(c)[j] {
      EntriesAscend(c, i + 1, j);
    }
  }

  /** One worked value of each: 0x100 is corrected to 0x107, 0x800 to 0x811, 0x300 to 0x309, 0xE00 to 0xE05. */
  lemma WorkedValues()
    ensures IsFloor(RangeTable(Vdd5Vref5), 0x100, 7) && InlTable(Vdd5Vref5)[7] == 7
    ensures IsFloor(RangeTable(Vdd5Vref3), 0x800, 19) && InlTable(Vdd5Vref3)[19] == 17
    ensures IsFloor(RangeTable(Vdd3Vref3), 0x300, 9) && InlTable(Vdd3Vref3)[9] == 9
    ensures IsFloor(RangeTable(Vdd5Vref2), 0xE00, 21) && InlTable(Vdd5Vref2)[21] == 5
    ensures InlTable(Vdd5Vref5)[25] == 25 && InlTable(Vdd5Vref5)[26] == 24
    ensures InlTable(Vdd5Vref3)[18] == 18 && InlTable(Vdd3Vref3)[16] == 16 && InlTable(Vdd5Vref2)[13] == 13
  {
    FloorAt(Vdd5Vref5, 0x100, 7);
    FloorAt(Vdd5Vref3, 0x800, 19);
    FloorAt(Vdd3Vref3, 0x300, 9);
    FloorAt(Vdd5Vref2, 0xE00, 21);
  }

  /** The index at which each table passes the largest 12-bit value; its correction is 0. */
  function LastReal(c: Config): nat {
    match c case Vdd5Vref5 => 50 case Vdd5Vref3 => 36 case Vdd3Vref3 => 32 case Vdd5Vref2 => 26
  }

  lemma FloorOfTopValue(c: Config)
    ensures IsFloor(RangeTable(c), 0xFFF, LastReal(c)) && InlEntry(c, LastReal(c)) == 0
  {
    var last := LastReal(c);
    assert RangeEntry(c, last) <= 0xFFF < RangeEntry(c, last + 1);
    forall j | last < j < SIZE ensures 0xFFF < RangeTable(c)[j] {
      EntriesAscend(c, last + 1, j);
    }
  }

  /**
   On the firmware's tables the addition never wraps, a 12-bit value stays a 12-bit value,
   and the correction is never negative.
   */
  lemma CorrectedRange(c: Config, v: word, i: nat)
    requires IsFloor(RangeTable(c), v, i)
    ensures v + InlTable(c)[i] < 0x1_0000
    ensures v < 0x1000 ==> v + InlTable(c)[i] < 0x1000
  {
    TablesAreWellFormed(c);
    CorrectionIsMonotone(RangeTable(c), InlTable(c), v, i, 0xFFFF, SIZE - 1);
    if v < 0x1000 {
      FloorOfTopValue(c);
      CorrectionIsMonotone(RangeTable(c), InlTable(c), v, i, 0xFFF, LastReal(c));
    }
  }
}
