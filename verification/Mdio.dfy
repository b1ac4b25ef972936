/**
 The bit-banged management interface of `mdcmdio.c`: the GPIO writes of `w_mdc_mdio` and
 `r_mdc_mdio` against the frame of section 22.2.4.5 of IEEE 802.3 and a model of the PHYs on
 the bus.

 All PHYs see the same bits, so one decoder and one register file indexed by PHY and register
 address stand for them.  A PHY looks at MDIO at every rising edge of MDC and drives it after
 one; an undriven line is pulled up.
 */
module Mdio {
  import opened Bytes

  type Bits = seq<bool>

  // ---------------------------------------------------------------------------
  // Numbers as bits, most significant first
  // ---------------------------------------------------------------------------

  function ToBits(v: nat, n: nat): (b: Bits)
    ensures |b| == n
  {
    if n == 0 then [] else ToBits(v / 2, n - 1) + [v % 2 == 1]
  }

  function Value(b: Bits): nat {
    if b == [] then 0 else 2 * Value(b[..|b| - 1]) + (if b[|b| - 1] then 1 else 0)
  }

  function ShiftRight(v: nat, i: nat): (s: nat)
    ensures s <= v
  {
    if i == 0 then v else ShiftRight(v, i - 1) / 2
  }

  /** Reading bits back gives the number. */
  lemma {:induction false} ValueOfBits(v: nat, n: nat)
    requires v < Pow2(n)
    ensures Value(ToBits(v, n)) == v
  {
    if n > 0 {
      ValueOfBits(v / 2, n - 1);
      assert ToBits(v, n)[..n - 1] == ToBits(v / 2, n - 1);
    }
  }

  lemma ValueOfWord(v: word)
    ensures Value(ToBits(v, 16)) == v
  {
    assert Pow2(4) == 16 && Pow2(8) == 0x100 && Pow2(12) == 0x1000;
    ValueOfBits(v, 16);
  }

  lemma {:induction false} ValueIsBelow(b: Bits)
    ensures Value(b) < Pow2(|b|)
  {
    if b != [] {
      ValueIsBelow(b[..|b| - 1]);
    }
  }

  lemma {:induction false} PowersBelowWord(i: nat)
    requires i <= 16
    ensures Pow2(i) <= 0x1_0000
    decreases 16 - i
  {
    if i == 16 {
      assert Pow2(4) == 16 && Pow2(8) == 0x100 && Pow2(12) == 0x1000;
    } else {
      PowersBelowWord(i + 1);
    }
  }

  /** Shifting in a bit doubles, and sixteen bits fit a word. */
  lemma ShiftedIn(b: Bits, line: bool)
    requires |b| < 16
    ensures Value(b + [line]) == 2 * Value(b) + (if line then 1 else 0) < 0x1_0000
  {
    assert (b + [line])[..|b|] == b;
    ValueIsBelow(b + [line]);
    PowersBelowWord(|b| + 1);
  }

  lemma FiveBits(v: nat)
    ensures ToBits(v, 5) == [v / 16 % 2 == 1, v / 8 % 2 == 1, v / 4 % 2 == 1, v / 2 % 2 == 1, v % 2 == 1]
  {
    assert v / 2 / 2 == v / 4 && v / 4 / 2 == v / 8 && v / 8 / 2 == v / 16;
    assert ToBits(v / 16, 1) == [v / 16 % 2 == 1];
    assert ToBits(v / 8, 2) == ToBits(v / 16, 1) + [v / 8 % 2 == 1];
    assert ToBits(v / 4, 3) == ToBits(v / 8, 2) + [v / 4 % 2 == 1];
    assert ToBits(v / 2, 4) == ToBits(v / 4, 3) + [v / 2 % 2 == 1];
  }

  lemma {:induction false} HighBitsIgnored(v: nat, n: nat, q: nat)
    ensures ToBits(v + q * Pow2(n), n) == ToBits(v, n)
  {
    if n > 0 {
      var x := q * Pow2(n - 1);
      assert q * Pow2(n) == 2 * x;
      HighBitsIgnored(v / 2, n - 1, q);
      assert (v + 2 * x) / 2 == v / 2 + x && (v + 2 * x) % 2 == v % 2;
    }
  }

  /** Only the low five bits of an address are sent. */
  lemma AddressSent(v: nat)
    ensures Value(ToBits(v, 5)) == v % 32
  {
    assert Pow2(5) == 32;
    HighBitsIgnored(v % 32, 5, v / 32);
    ValueOfBits(v % 32, 5);
  }

  // ---------------------------------------------------------------------------
  // The PHYs
  // ---------------------------------------------------------------------------

  type Address = (nat, nat)

  /** Where the decoder stands: in the idle condition after some ones, or within a frame. */
  datatype Phase =
    | Idle(ones: nat)
    | Started
    | Header(bits: Bits)
    | Writing(to: Address, bits: Bits)
    | Reading(from: Address, clock: nat)

  /** `minimum` ones must precede the start of a frame. */
  datatype Phy = Phy(minimum: nat, phase: Phase, regs: map<Address, word>)

  /** A register not written yet holds 0. */
  function Stored(regs: map<Address, word>, a: Address): word {
    if a in regs then regs[a] else 0
  }

  /** The frame starting with these operation and address bits. */
  function Addressed(b: Bits): Phase
    requires |b| == 12
  {
    var a := (Value(b[2..7]), Value(b[7..12]));
    if b[..2] == [false, true] then Writing(a, [])
    else if b[..2] == [true, false] then Reading(a, 0)
    else Idle(0)
  }

  /** One rising edge of MDC with `line` on MDIO. */
  function Next(p: Phy, line: bool): (q: Phy)
    ensures q.minimum == p.minimum
  {
    match p.phase
    case Idle(ones) =>
      p.(phase := if line then Idle(ones + 1) else if ones >= p.minimum then Started else Idle(0))
    case Started =>
      p.(phase := if line then Header([]) else Idle(0))
    case Header(bits) =>
      p.(phase := if |bits| == 11 then Addressed(bits + [line]) else Header(bits + [line]))
    case Writing(to, bits) =>
      if |bits| == 17 then p.(phase := Idle(0), regs := p.regs[to := Value((bits + [line])[2..]) % 0x1_0000])
      else p.(phase := Writing(to, bits + [line]))
    case Reading(from, clock) =>
      p.(phase := if clock < 17 then Reading(from, clock + 1) else Idle(0))
  }

  /** What is on an MDIO line that the master does not drive: a read's data, or the pull-up. */
  function Floating(p: Phy): bool {
    match p.phase
    case Reading(from, clock) =>
      if clock == 1 then false
      else if 2 <= clock < 18 then ToBits(Stored(p.regs, from), 16)[clock - 2]
      else true
    case _ => true
  }

  function Feed(p: Phy, b: Bits): (q: Phy)
    ensures q.minimum == p.minimum
  {
    if b == [] then p else Next(Feed(p, b[..|b| - 1]), b[|b| - 1])
  }

  lemma {:induction false} FeedAppends(p: Phy, a: Bits, b: Bits)
    ensures Feed(p, a + b) == Feed(Feed(p, a), b)
  {
    if b == [] {
      assert a + b == a;
    } else {
      FeedAppends(p, a, b[..|b| - 1]);
      assert (a + b)[..|a + b| - 1] == a + b[..|b| - 1];
    }
  }

  lemma FeedOneMore(p: Phy, b: Bits, line: bool)
    ensures Feed(p, b + [line]) == Next(Feed(p, b), line)
  {
    assert (b + [line])[..|b|] == b;
  }

  /** The PHYs after `n` rising edges while the master does not drive MDIO. */
  function Clocked(p: Phy, n: nat): Phy {
    if n == 0 then p else Next(Clocked(p, n - 1), Floating(Clocked(p, n - 1)))
  }

  /** The lines seen at these edges. */
  function Released(p: Phy, n: nat): (b: Bits)
    ensures |b| == n
  {
    if n == 0 then [] else Released(p, n - 1) + [Floating(Clocked(p, n - 1))]
  }

  lemma {:induction false} FeedReleased(p: Phy, n: nat)
    ensures Feed(p, Released(p, n)) == Clocked(p, n)
  {
    hide Next, Floating;
    if n > 0 {
      FeedReleased(p, n - 1);
      FeedOneMore(p, Released(p, n - 1), Floating(Clocked(p, n - 1)));
    }
  }

  // ---------------------------------------------------------------------------
  // Frames
  // ---------------------------------------------------------------------------

  function Ones(n: nat): (b: Bits)
    ensures |b| == n
  {
    seq(n, _ => true)
  }

  /** Preamble, start of frame, operation code and addresses. */
  function FrameHead(preamble: nat, write: bool, phyAddr: byte, regAddr: byte): Bits {
    Ones(preamble) + [false, true, !write, write] + ToBits(phyAddr, 5) + ToBits(regAddr, 5)
  }

  function WriteFrame(phyAddr: byte, regAddr: byte, data: word): Bits {
    FrameHead(32, true, phyAddr, regAddr) + ([true, false] + ToBits(data, 16))
  }

  /** The part of a read frame that the master sends; it has 31 ones, not 32. */
  function ReadFrame(phyAddr: byte, regAddr: byte): Bits {
    FrameHead(31, false, phyAddr, regAddr)
  }

  /** The first bit is the most significant. */
  lemma {:induction false} FirstBitCounts(b: Bits)
    ensures Value([true] + b) == Pow2(|b|) + Value(b) && Value([false] + b) == Value(b)
  {
    if b == [] {
      assert [true][..0] == [] && [false][..0] == [];
      assert [true] + b == [true] && [false] + b == [false];
    } else {
      var n := |b| - 1;
      FirstBitCounts(b[..n]);
      assert ([true] + b)[..n + 1] == [true] + b[..n] && ([false] + b)[..n + 1] == [false] + b[..n];
    }
  }

  /** Bit by bit, as in section 22.2.4.5 of IEEE 802.3: preamble, start, operation, addresses, turn-around, data. */
  lemma WriteFrameBits(phyAddr: byte, regAddr: byte, data: word)
    ensures var f := WriteFrame(phyAddr, regAddr, data);
      && |f| == 64 && (forall i :: 0 <= i < 32 ==> f[i]) && f[32..36] == [false, true, false, true]
      && Value(f[36..41]) == phyAddr % 32 && Value(f[41..46]) == regAddr % 32
      && f[46..48] == [true, false] && Value(f[48..]) == data
  {
    hide Value, ToBits;
    FrameBits(Ones(32), [false, true, false, true], ToBits(phyAddr, 5), ToBits(regAddr, 5),
              [true, false] + ToBits(data, 16));
    AddressSent(phyAddr);
    AddressSent(regAddr);
    ValueOfWord(data);
    var f, tail := WriteFrame(phyAddr, regAddr, data), [true, false] + ToBits(data, 16);
    assert f == Ones(32) + [false, true, false, true] + ToBits(phyAddr, 5) + ToBits(regAddr, 5) + tail;
    assert f[46..48] == f[46..][..2] == tail[..2] && f[48..] == f[46..][2..] == tail[2..];
  }

  /** The part of a read frame that is sent: 31 ones and the operation 10. */
  lemma ReadFrameBits(phyAddr: byte, regAddr: byte)
    ensures var f := ReadFrame(phyAddr, regAddr);
      && |f| == 45 && (forall i :: 0 <= i < 31 ==> f[i]) && f[31..35] == [false, true, true, false]
      && Value(f[35..40]) == phyAddr % 32 && Value(f[40..45]) == regAddr % 32
  {
    hide Value, ToBits;
    FrameBits(Ones(31), [false, true, true, false], ToBits(phyAddr, 5), ToBits(regAddr, 5), []);
    AddressSent(phyAddr);
    AddressSent(regAddr);
    assert ReadFrame(phyAddr, regAddr)
      == Ones(31) + [false, true, true, false] + ToBits(phyAddr, 5) + ToBits(regAddr, 5) + [];
  }

  /** With the two bits of the turn-around and sixteen of data a read is one bit short of the 64 of a frame. */
  lemma ReadIsOneShort(p: Phy, phyAddr: byte, regAddr: byte)
    ensures |ReadFrame(phyAddr, regAddr)| + |ReadLines(p, phyAddr, regAddr)| == 63
    ensures ReadValue(p, phyAddr, regAddr) == Value(ReadLines(p, phyAddr, regAddr)[2..18])
  {
    assert ReadLines(p, phyAddr, regAddr)[2..18] == ReadLines(p, phyAddr, regAddr)[2..];
  }

  lemma FrameBits(p: Bits, s: Bits, a: Bits, r: Bits, t: Bits)
    requires |s| == 4 && |a| == |r| == 5
    ensures var f, n := p + s + a + r + t, |p|;
      && |f| == n + 14 + |t| && f[..n] == p && f[n..n + 4] == s && f[n + 4..n + 9] == a
      && f[n + 9..n + 14] == r && f[n + 14..] == t
      && forall i :: 0 <= i < n ==> f[i] == p[i]
  {
  }

  /** The PHYs after a write. */
  function AfterWrite(p: Phy, phyAddr: byte, regAddr: byte, data: word): Phy {
    Feed(p, WriteFrame(phyAddr, regAddr, data))
  }

  /** The 18 lines of the turn-around and data of a read. */
  function ReadLines(p: Phy, phyAddr: byte, regAddr: byte): Bits {
    Released(Feed(p, ReadFrame(phyAddr, regAddr)), 18)
  }

  function AfterRead(p: Phy, phyAddr: byte, regAddr: byte): Phy {
    Clocked(Feed(p, ReadFrame(phyAddr, regAddr)), 18)
  }

  /** What a read returns. */
  function ReadValue(p: Phy, phyAddr: byte, regAddr: byte): nat {
    Value(ReadLines(p, phyAddr, regAddr)[2..])
  }

  // ---------------------------------------------------------------------------
  // What the PHYs make of the frames
  // ---------------------------------------------------------------------------

  function AddressOf(phyAddr: byte, regAddr: byte): Address {
    (phyAddr % 32, regAddr % 32)
  }

  lemma {:induction false} FeedOnes(p: Phy, n: nat)
    requires p.phase.Idle?
    ensures Feed(p, Ones(n)) == p.(phase := Idle(p.phase.ones + n))
  {
    if n > 0 {
      FeedOnes(p, n - 1);
      assert Ones(n)[..n - 1] == Ones(n - 1);
    }
  }

  lemma {:induction false} HeaderCollects(p: Phy, b: Bits)
    requires p.phase == Header([]) && |b| <= 12
    ensures Feed(p, b) == p.(phase := if |b| == 12 then Addressed(b) else Header(b))
  {
    if b != [] {
      HeaderCollects(p, b[..|b| - 1]);
      assert b[..|b| - 1] + [b[|b| - 1]] == b;
    }
  }

  lemma {:induction false} WritingCollects(p: Phy, b: Bits)
    requires p.phase.Writing? && p.phase.bits == [] && |b| < 18
    ensures Feed(p, b) == p.(phase := Writing(p.phase.to, b))
  {
    if b != [] {
      WritingCollects(p, b[..|b| - 1]);
      assert b[..|b| - 1] + [b[|b| - 1]] == b;
    }
  }

  lemma AddressedByHead(write: bool, phyAddr: byte, regAddr: byte)
    ensures var a := AddressOf(phyAddr, regAddr);
      Addressed([!write, write] + ToBits(phyAddr, 5) + ToBits(regAddr, 5))
      == if write then Writing(a, []) else Reading(a, 0)
  {
    var b := [!write, write] + ToBits(phyAddr, 5) + ToBits(regAddr, 5);
    assert b[..2] == [!write, write] && b[2..7] == ToBits(phyAddr, 5) && b[7..12] == ToBits(regAddr, 5);
    AddressSent(phyAddr);
    AddressSent(regAddr);
  }

  lemma StartSeen(p: Phy)
    requires p.phase.Idle? && p.phase.ones >= p.minimum
    ensures Feed(p, [false, true]) == p.(phase := Header([]))
  {
    assert [false, true][..1] == [false] && [false][..0] == [];
    assert Feed(p, [false]) == p.(phase := Started);
  }

  /** Enough ones before the head of a frame make the PHYs take its operation and address. */
  lemma HeadTaken(p: Phy, preamble: nat, write: bool, phyAddr: byte, regAddr: byte)
    requires p.phase.Idle? && p.phase.ones + preamble >= p.minimum
    ensures var a := AddressOf(phyAddr, regAddr);
      Feed(p, FrameHead(preamble, write, phyAddr, regAddr))
      == p.(phase := if write then Writing(a, []) else Reading(a, 0))
  {
    var b := [!write, write] + ToBits(phyAddr, 5) + ToBits(regAddr, 5);
    assert FrameHead(preamble, write, phyAddr, regAddr) == Ones(preamble) + ([false, true] + b);
    FeedAppends(p, Ones(preamble), [false, true] + b);
    FeedOnes(p, preamble);
    var q := p.(phase := Idle(p.phase.ones + preamble));
    FeedAppends(q, [false, true], b);
    StartSeen(q);
    var r := p.(phase := Header([]));
    HeaderCollects(r, b);
    AddressedByHead(write, phyAddr, regAddr);
  }

  /** The eighteenth bit of a write completes it. */
  lemma DataTaken(p: Phy, last: bool, data: word)
    requires p.phase.Writing? && |p.phase.bits| == 17 && (p.phase.bits + [last])[2..] == ToBits(data, 16)
    ensures Next(p, last) == p.(phase := Idle(0), regs := p.regs[p.phase.to := data])
  {
    hide ToBits, Value;
    ValueOfWord(data);
  }

  /** A write stores its data, whatever else the registers hold. */
  lemma WriteStores(p: Phy, phyAddr: byte, regAddr: byte, data: word)
    requires p.phase.Idle? && p.phase.ones + 32 >= p.minimum
    ensures AfterWrite(p, phyAddr, regAddr, data)
      == p.(phase := Idle(0), regs := p.regs[AddressOf(phyAddr, regAddr) := data])
  {
    var b := [true, false] + ToBits(data, 16);
    HeadTaken(p, 32, true, phyAddr, regAddr);
    FeedAppends(p, FrameHead(32, true, phyAddr, regAddr), b);
    var q := p.(phase := Writing(AddressOf(phyAddr, regAddr), []));
    assert b[..17] + [b[17]] == b && b[2..] == ToBits(data, 16);
    WritingCollects(q, b[..17]);
    FeedOneMore(q, b[..17], b[17]);
    DataTaken(q.(phase := Writing(q.phase.to, b[..17])), b[17], data);
  }

  lemma {:induction false} ReadingCounts(p: Phy, n: nat)
    requires p.phase.Reading? && p.phase.clock == 0 && n <= 18
    ensures Clocked(p, n) == p.(phase := if n == 18 then Idle(0) else Reading(p.phase.from, n))
  {
    if n > 0 {
      ReadingCounts(p, n - 1);
    }
  }

  /** A PHY that drives the bits of `d` behind the turn-around has them read. */
  lemma {:induction false} ReleasedBits(p: Phy, d: Bits, n: nat)
    requires n <= |d| && forall k :: 0 <= k < |d| ==> Floating(Clocked(p, k + 2)) == d[k]
    ensures Released(p, n + 2)[2..] == d[..n]
  {
    if n > 0 {
      ReleasedBits(p, d, n - 1);
      var r := Released(p, n + 1);
      assert Released(p, n + 2) == r + [d[n - 1]];
      assert (r + [d[n - 1]])[2..] == r[2..] + [d[n - 1]];
    }
  }

  /** During a read the register comes out behind the turn-around, most significant bit first. */
  lemma RegisterDriven(p: Phy)
    requires p.phase.Reading? && p.phase.clock == 0
    ensures Released(p, 18)[2..] == ToBits(Stored(p.regs, p.phase.from), 16)
  {
    var d := ToBits(Stored(p.regs, p.phase.from), 16);
    forall k | 0 <= k < |d| ensures Floating(Clocked(p, k + 2)) == d[k] {
      ReadingCounts(p, k + 2);
    }
    ReleasedBits(p, d, 16);
  }

  /** A read whose preamble is long enough returns the register. */
  lemma ReadFetches(p: Phy, phyAddr: byte, regAddr: byte)
    requires p.phase.Idle? && p.phase.ones + 31 >= p.minimum
    ensures ReadValue(p, phyAddr, regAddr) == Stored(p.regs, AddressOf(phyAddr, regAddr))
    ensures AfterRead(p, phyAddr, regAddr) == p.(phase := Idle(0))
  {
    HeadTaken(p, 31, false, phyAddr, regAddr);
    var q := p.(phase := Reading(AddressOf(phyAddr, regAddr), 0));
    ReadingCounts(q, 18);
    RegisterDriven(q);
    ValueOfWord(Stored(p.regs, q.phase.from));
  }

  // ---------------------------------------------------------------------------
  // Runs
  // ---------------------------------------------------------------------------

  datatype Access = WriteReg(phyAddr: byte, regAddr: byte, data: word) | ReadReg(phyAddr: byte, regAddr: byte)

  function After(p: Phy, run: seq<Access>): Phy {
    if run == [] then p
    else
      var q := After(p, run[..|run| - 1]);
      match run[|run| - 1]
      case WriteReg(phyAddr, regAddr, data) => AfterWrite(q, phyAddr, regAddr, data)
      case ReadReg(phyAddr, regAddr) => AfterRead(q, phyAddr, regAddr)
  }

  /** The last value written to `a` in `run`, or what it held before. */
  function LastWritten(before: word, run: seq<Access>, a: Address): word {
    if run == [] then before
    else
      var last := run[|run| - 1];
      if last.WriteReg? && AddressOf(last.phyAddr, last.regAddr) == a then last.data
      else LastWritten(before, run[..|run| - 1], a)
  }

  lemma {:induction false} RegistersHoldLastWritten(p: Phy, run: seq<Access>, a: Address)
    requires p.phase.Idle? && p.minimum <= 31
    ensures var q := After(p, run);
      q.phase.Idle? && q.minimum == p.minimum && Stored(q.regs, a) == LastWritten(Stored(p.regs, a), run, a)
  {
    if run != [] {
      var q := After(p, run[..|run| - 1]);
      RegistersHoldLastWritten(p, run[..|run| - 1], a);
      match run[|run| - 1] {
        case WriteReg(phyAddr, regAddr, data) => WriteStores(q, phyAddr, regAddr, data);
        case ReadReg(phyAddr, regAddr) => ReadFetches(q, phyAddr, regAddr);
      }
    }
  }

  /**
   With PHYs that need at most 31 ones, after any run of accesses a read returns the last value
   written to that register.
   */
  lemma ReadReturnsLastWritten(p: Phy, run: seq<Access>, phyAddr: byte, regAddr: byte)
    requires p.phase.Idle? && p.minimum <= 31
    ensures var a := AddressOf(phyAddr, regAddr);
      ReadValue(After(p, run), phyAddr, regAddr) == LastWritten(Stored(p.regs, a), run, a)
  {
    RegistersHoldLastWritten(p, run, AddressOf(phyAddr, regAddr));
    ReadFetches(After(p, run), phyAddr, regAddr);
  }

  /** Too few bits to complete the preamble never start a frame. */
  lemma {:induction false} NeverStarts(p: Phy, b: Bits)
    requires p.phase.Idle? && p.phase.ones + |b| < p.minimum
    ensures var q := Feed(p, b);
      q.phase.Idle? && q.phase.ones <= p.phase.ones + |b| && q.regs == p.regs
  {
    if b != [] {
      NeverStarts(p, b[..|b| - 1]);
    }
  }

  /** While no PHY drives it, the line is pulled up. */
  lemma {:induction false} PulledUp(p: Phy, n: nat)
    requires p.phase.Idle?
    ensures Clocked(p, n) == p.(phase := Idle(p.phase.ones + n)) && Released(p, n) == Ones(n)
  {
    if n > 0 {
      PulledUp(p, n - 1);
    }
  }

  lemma {:induction false} ValueOfOnes(n: nat)
    ensures Value(Ones(n)) == Pow2(n) - 1
  {
    if n > 0 {
      assert Ones(n)[..n - 1] == Ones(n - 1);
      ValueOfOnes(n - 1);
    }
  }

  /** A start of frame that comes too early only puts the PHYs back to no ones. */
  lemma TooEarly(p: Phy, rest: Bits)
    requires p.phase == Idle(0) && p.minimum == 32
    ensures Feed(p, Ones(31) + ([false] + rest)) == Feed(p, rest)
  {
    FeedAppends(p, Ones(31), [false] + rest);
    FeedOnes(p, 31);
    var q := p.(phase := Idle(31));
    FeedAppends(q, [false], rest);
    FeedOneMore(q, [], false);
    assert [] + [false] == [false];
  }

  lemma PulledUpValue(p: Phy)
    requires p.phase.Idle?
    ensures Value(Released(p, 18)[2..]) == 0xFFFF
  {
    PulledUp(p, 18);
    assert Ones(18)[2..] == Ones(16);
    ValueOfOnes(16);
    assert Pow2(4) == 16 && Pow2(8) == 0x100 && Pow2(12) == 0x1000;
  }

  /**
   A PHY that insists on 32 ones misses the read that follows a frame: its 31 ones are too few
   and the read returns the pulled-up line.
   */
  lemma ReadMissed(p: Phy, phyAddr: byte, regAddr: byte)
    requires p.phase == Idle(0) && p.minimum == 32
    ensures ReadValue(p, phyAddr, regAddr) == 0xFFFF
    ensures var q := AfterRead(p, phyAddr, regAddr);
      q.phase.Idle? && q.phase.ones >= 18 && q.minimum == 32 && q.regs == p.regs
  {
    hide Feed, Next, Value, ToBits, Clocked, Released, Ones;
    var rest := [true, true, false] + ToBits(phyAddr, 5) + ToBits(regAddr, 5);
    assert ReadFrame(phyAddr, regAddr) == Ones(31) + ([false] + rest);
    TooEarly(p, rest);
    NeverStarts(p, rest);
    PulledUp(Feed(p, rest), 18);
    PulledUpValue(Feed(p, rest));
  }

  /**
   So reading back what was just written works for every value exactly when the PHYs accept a
   preamble of 31 ones.
   */
  lemma ReadBackExactlyWhen(p: Phy, phyAddr: byte, regAddr: byte, data: word)
    requires p.phase.Idle? && p.minimum <= 32
    ensures ReadValue(AfterWrite(p, phyAddr, regAddr, data), phyAddr, regAddr) == data
      <==> p.minimum <= 31 || data == 0xFFFF
  {
    WriteStores(p, phyAddr, regAddr, data);
    var q := AfterWrite(p, phyAddr, regAddr, data);
    if p.minimum <= 31 {
      ReadFetches(q, phyAddr, regAddr);
    } else {
      ReadMissed(q, phyAddr, regAddr);
    }
  }

  /** The pulled-up line of a missed read completes the preamble of the next one, which succeeds. */
  lemma SecondReadSucceeds(p: Phy, phyAddr: byte, regAddr: byte)
    requires p.phase == Idle(0) && p.minimum == 32
    ensures ReadValue(AfterRead(p, phyAddr, regAddr), phyAddr, regAddr) == Stored(p.regs, AddressOf(phyAddr, regAddr))
  {
    ReadMissed(p, phyAddr, regAddr);
    ReadFetches(AfterRead(p, phyAddr, regAddr), phyAddr, regAddr);
  }

  // ---------------------------------------------------------------------------
  // Runs with PHYs that insist on 32 ones
  // ---------------------------------------------------------------------------

  /** Whether the next read is answered: a write makes it not, and from then on every other one is. */
  predicate Answered(before: bool, run: seq<Access>) {
    if run == [] then before
    else run[|run| - 1].ReadReg? && !Answered(before, run[..|run| - 1])
  }

  lemma {:induction false} StrictRun(p: Phy, run: seq<Access>, a: Address)
    requires p.phase.Idle? && p.minimum == 32
    ensures var q := After(p, run);
      && q.phase.Idle? && q.minimum == 32 && (q.phase.ones > 0 <==> Answered(p.phase.ones > 0, run))
      && Stored(q.regs, a) == LastWritten(Stored(p.regs, a), run, a)
  {
    hide AfterWrite, AfterRead, ReadValue;
    if run != [] {
      var q := After(p, run[..|run| - 1]);
      StrictRun(p, run[..|run| - 1], a);
      match run[|run| - 1] {
        case WriteReg(phyAddr, regAddr, data) => WriteStores(q, phyAddr, regAddr, data);
        case ReadReg(phyAddr, regAddr) =>
          if q.phase.ones > 0 {
            ReadFetches(q, phyAddr, regAddr);
          } else {
            ReadMissed(q, phyAddr, regAddr);
          }
      }
    }
  }

  /** After any run of accesses such a PHY returns the last value written, or 0xFFFF if the read is not answered. */
  lemma StrictReadReturns(p: Phy, run: seq<Access>, phyAddr: byte, regAddr: byte)
    requires p.phase.Idle? && p.minimum == 32
    ensures var a := AddressOf(phyAddr, regAddr);
      ReadValue(After(p, run), phyAddr, regAddr)
      == if Answered(p.phase.ones > 0, run) then LastWritten(Stored(p.regs, a), run, a) else 0xFFFF
  {
    hide ReadValue;
    StrictRun(p, run, AddressOf(phyAddr, regAddr));
    if Answered(p.phase.ones > 0, run) {
      ReadFetches(After(p, run), phyAddr, regAddr);
    } else {
      ReadMissed(After(p, run), phyAddr, regAddr);
    }
  }

  /** Of the reads that follow a write the second, fourth, ... are answered. */
  lemma {:induction false} EveryOtherReadAnswered(before: bool, run: seq<Access>, queries: seq<Access>)
    requires run != [] && run[|run| - 1].WriteReg? && forall i :: 0 <= i < |queries| ==> queries[i].ReadReg?
    ensures Answered(before, run + queries) <==> |queries| % 2 == 1
  {
    if queries == [] {
      assert run + queries == run;
    } else {
      assert (run + queries)[..|run + queries| - 1] == run + queries[..|queries| - 1];
      EveryOtherReadAnswered(before, run, queries[..|queries| - 1]);
    }
  }

  // ---------------------------------------------------------------------------
  // The firmware
  // ---------------------------------------------------------------------------

  class Bus {
    /** Levels of the two pins and the direction of MDIO. */
    var mdc: bool
    var mdio: bool
    var output: bool
    /** The world at the other end: the PHYs when the bus was set up, and MDIO at every rising edge since. */
    const start: Phy
    var edges: Bits

    constructor (mdc: bool, mdio: bool, phys: Phy)
      ensures output && edges == [] && start == phys
    {
      this.mdc, this.mdio, output := mdc, mdio, true;
      start, edges := phys, [];
    }

    function Phys(): Phy
      reads this
    {
      Feed(start, edges)
    }

    function Line(): bool
      reads this
    {
      if output then mdio else Floating(Phys())
    }

    /** `sal_gpio_output_set` on MDC. */
    method SetMdc(level: bool)
      modifies this`mdc, this`edges
      ensures mdc == level
      ensures edges == if !old(mdc) && level then old(edges) + [old(Line())] else old(edges)
    {
      if !mdc && level {
        edges := edges + [Line()];
      }
      mdc := level;
    }

    method SetHigh()
      requires output
      modifies this`mdc, this`mdio, this`edges
      ensures mdc && edges == old(edges) + [true]
    {
      SetMdc(false);
      mdio := true;
      SetMdc(true);
    }

    method SetLow()
      requires output
      modifies this`mdc, this`mdio, this`edges
      ensures mdc && edges == old(edges) + [false]
    {
      SetMdc(false);
      mdio := false;
      SetMdc(true);
    }

    method Send(bit: bool)
      requires output
      modifies this`mdc, this`mdio, this`edges
      ensures mdc && edges == old(edges) + [bit]
    {
      if bit {
        SetHigh();
      } else {
        SetLow();
      }
    }

    method SendPreamble(n: nat)
      requires output
      modifies this`mdc, this`mdio, this`edges
      ensures edges == old(edges) + Ones(n)
    {
      var i := 0;
      while i < n
        invariant i <= n && edges == old(edges) + Ones(i)
      {
        SetHigh();
        assert old(edges) + Ones(i) + [true] == old(edges) + Ones(i + 1);
        i := i + 1;
      }
    }

    /** One of the two address fields, masked bit by bit. */
    method SendAddress(v: byte)
      requires output
      modifies this`mdc, this`mdio, this`edges
      ensures mdc && edges == old(edges) + ToBits(v, 5)
    {
      hide ToBits;
      Send(v / 16 % 2 == 1);
      Send(v / 8 % 2 == 1);
      Send(v / 4 % 2 == 1);
      Send(v / 2 % 2 == 1);
      Send(v % 2 == 1);
      FiveBits(v);
    }

    method SendData(v: word)
      requires output
      modifies this`mdc, this`mdio, this`edges
      ensures edges == old(edges) + ToBits(v, 16)
    {
      var i := 15;
      while i >= 0
        invariant -1 <= i <= 15 && edges == old(edges) + ToBits(ShiftRight(v, i + 1), 15 - i)
      {
        Send(ShiftRight(v, i) % 2 == 1);
        assert old(edges) + ToBits(ShiftRight(v, i + 1), 15 - i) + [ShiftRight(v, i) % 2 == 1]
            == old(edges) + ToBits(ShiftRight(v, i), 16 - i);
        i := i - 1;
      }
    }

    /** What `w_mdc_mdio` and `r_mdc_mdio` send alike. */
    method SendHead(preamble: nat, write: bool, phyAddr: byte, regAddr: byte)
      requires output
      modifies this`mdc, this`mdio, this`edges
      ensures mdc && edges == old(edges) + FrameHead(preamble, write, phyAddr, regAddr)
    {
      hide Ones, ToBits;
      SendPreamble(preamble);
      SetLow();
      SetHigh();
      Send(!write);
      Send(write);
      SendAddress(phyAddr);
      SendAddress(regAddr);
    }

    /** `w_mdc_mdio`. */
    method Write(phyAddr: byte, regAddr: byte, data: word)
      requires output
      modifies this`mdc, this`mdio, this`edges
      ensures edges == old(edges) + WriteFrame(phyAddr, regAddr, data)
      ensures Phys() == AfterWrite(old(Phys()), phyAddr, regAddr, data)
    {
      SendHead(32, true, phyAddr, regAddr);
      SetHigh();
      SetLow();
      SendData(data);
      assert edges == old(edges) + WriteFrame(phyAddr, regAddr, data);
      FeedAppends(start, old(edges), WriteFrame(phyAddr, regAddr, data));
    }

    /** A clock pulse while MDIO is an input; `line` is what it shows in between. */
    method Pulse(ghost head: Bits, ghost n: nat) returns (line: bool)
      requires !output && mdc && edges == head + Released(Feed(start, head), n)
      modifies this`mdc, this`edges
      ensures mdc && edges == head + Released(Feed(start, head), n + 1)
      ensures Released(Feed(start, head), n + 1) == Released(Feed(start, head), n) + [line]
    {
      hide Feed, Next, Floating;
      FeedAppends(start, head, Released(Feed(start, head), n));
      FeedReleased(Feed(start, head), n);
      SetMdc(false);
      line := Line();
      SetMdc(true);
    }

    /** Turn-around and data of a read, with MDIO as an input. */
    method Receive() returns (data: word)
      requires output && mdc
      modifies this
      ensures output && mdc && edges == old(edges) + Released(old(Phys()), 18)
      ensures data == Value(Released(old(Phys()), 18)[2..])
    {
      ghost var head, p := edges, Phys();
      output := false;
      var line := Pulse(head, 0);
      line := Pulse(head, 1);
      data := ShiftIn(head);
      output := true;
      SetMdc(true);
    }

    /** The sixteen data bits behind the turn-around. */
    method ShiftIn(ghost head: Bits) returns (data: word)
      requires !output && mdc && edges == head + Released(Feed(start, head), 2)
      modifies this`mdc, this`edges
      ensures mdc && edges == head + Released(Feed(start, head), 18)
      ensures data == Value(Released(Feed(start, head), 18)[2..])
    {
      hide Feed, Released;
      ghost var p, bits: Bits := Feed(start, head), [];
      var line;
      data := 0;
      var i := 0;
      while i < 16
        invariant i <= 16 && mdc && edges == head + Released(p, 2 + i)
        invariant bits == Released(p, 2 + i)[2..] && data == Value(bits)
      {
        line := Pulse(head, 2 + i);
        ShiftedIn(bits, line);
        bits := bits + [line];
        data := 2 * (data as int) + if line then 1 else 0;
        i := i + 1;
      }
    }

    /** `r_mdc_mdio`. */
    method Read(phyAddr: byte, regAddr: byte) returns (data: word)
      requires output
      modifies this
      ensures output
      ensures edges == old(edges) + ReadFrame(phyAddr, regAddr) + ReadLines(old(Phys()), phyAddr, regAddr)
      ensures Phys() == AfterRead(old(Phys()), phyAddr, regAddr)
      ensures data == ReadValue(old(Phys()), phyAddr, regAddr)
    {
      SendHead(31, false, phyAddr, regAddr);
      FeedAppends(start, old(edges), ReadFrame(phyAddr, regAddr));
      ghost var head, p := edges, Phys();
      data := Receive();
      FeedAppends(start, head, Released(p, 18));
      FeedReleased(p, 18);
    }
  }
}
