/**
 The receive buffer between the UART interrupt, which fills it, and the main loop, which
 parses it in place, clearing the completion flag first: bytes may arrive between any two
 steps of the parse, while it holds a temporary NUL in the buffer.

 The interleaving is a state machine: one step is either one byte interrupt or one access of
 the main loop to the shared variables.
 */
module Receiver {
  import opened Bytes
  import opened VoltageCommand

  const FRAME_SIZE := 128

  /** The variables shared with the interrupt. */
  datatype Rx = Rx(buff: seq<byte>, cnt: byte, complete: bool)

  ghost predicate ValidRx(rx: Rx) {
    && |rx.buff| == FRAME_SIZE
    && rx.cnt <= FRAME_SIZE - 1
    && rx.buff[FRAME_SIZE - 1] == NUL
    && (rx.complete ==> rx.cnt == 0)
  }

  /** The effect of one byte interrupt. */
  function Received(rx: Rx, b: byte): (r: Rx)
    requires ValidRx(rx)
    ensures ValidRx(r)
  {
    if rx.complete || rx.cnt == FRAME_SIZE - 1 then
      if b == LF then rx.(cnt := 0, complete := true) else rx
    else if b == LF then Rx(rx.buff[rx.cnt := b][rx.cnt + 1 := NUL], 0, true)
    else rx.(buff := rx.buff[rx.cnt := b], cnt := rx.cnt + 1)
  }

  class Uart {
    const usartRxBuff: array<byte>
    var receiveCnt: byte
    var receiveComplete: bool

    ghost function Abs(): Rx
      reads this, usartRxBuff
    {
      Rx(usartRxBuff[..], receiveCnt, receiveComplete)
    }

    constructor ()
      ensures ValidRx(Abs()) && receiveCnt == 0 && !receiveComplete && fresh(usartRxBuff)
      ensures usartRxBuff.Length == 128
    {
      usartRxBuff := new byte[FRAME_SIZE](_ => 0);
      receiveCnt, receiveComplete := 0, false;
    }

    /** The receive part of the interrupt handler. */
    method OnByte(temp: byte)
      requires ValidRx(Abs())
      modifies this, usartRxBuff
      ensures ValidRx(Abs()) && Abs() == Received(old(Abs()), temp)
    {
      if receiveCnt < FRAME_SIZE - 1 && !receiveComplete {
        usartRxBuff[receiveCnt] := temp;
        receiveCnt := receiveCnt + 1;
        if temp == LF {
          usartRxBuff[receiveCnt] := NUL;
          receiveCnt := 0;
          receiveComplete := true;
        }
      } else if temp == LF {
        receiveCnt := 0;
        receiveComplete := true;
      }
    }

    /** Interrupts in a row, during a delay of the main loop. */
    method OnBytes(bytes: seq<byte>)
      requires ValidRx(Abs())
      modifies this, usartRxBuff
      ensures ValidRx(Abs()) && Abs() == Fed(old(Abs()), bytes)
    {
      assert bytes[..|bytes|] == bytes;
      for i := 0 to |bytes|
        invariant ValidRx(Abs()) && Abs() == Fed(old(Abs()), bytes[..i])
      {
        assert bytes[..i + 1][..i] == bytes[..i];
        OnByte(bytes[i]);
      }
    }

    /** The next access of a parse. */
    method Access(pc: Pc) returns (next: Pc)
      requires Valid(System(Abs(), pc)) && Parsing(pc)
      modifies usartRxBuff
      ensures Valid(System(Abs(), next)) && System(Abs(), next) == MainStep(old(System(Abs(), pc)))
    {
      next := PcAfter(pc, usartRxBuff[ReadAt(pc)]);
      match pc {
        case Terminate(_, end, _) => usartRxBuff[end] := NUL;
        case Restore(end, saved, _) => usartRxBuff[end] := saved;
        case _ =>
      }
    }

    /** A whole parse, with the byte interrupts that fall into it. */
    method Parse(events: seq<Event>) returns (pc: Pc)
      requires ValidRx(Abs()) && IsParse(System(Abs(), Testing(0)), events)
      modifies this, usartRxBuff
      ensures Valid(System(Abs(), pc)) && System(Abs(), pc) == Run(old(System(Abs(), Testing(0))), events)
    {
      hide MainStep, Received, Parsing, Valid, ParsesThroughout;
      ghost var s := System(Abs(), Testing(0));
      ParseStarts(Abs());
      pc := Testing(0);
      for i := 0 to |events|
        invariant Valid(System(Abs(), pc)) && System(Abs(), pc) == Run(s, events[..i])
      {
        ParsesAt(s, events, i);
        RunOneMore(s, events[..i], events[i]);
        assert events[..i + 1] == events[..i] + [events[i]];
        ValidParts(System(Abs(), pc));
        match events[i] {
          case Byte(b) => OnByte(b);
          case Main => pc := Access(pc);
        }
      }
      assert events[..|events|] == events;
    }
  }

  // ---------------------------------------------------------------------------
  // The main loop, access by access
  // ---------------------------------------------------------------------------

  /**
   Where the main loop stands.  `Testing(k)` is about to make the `k`-th comparison that tells
   commands apart; `Answering` and `Done` carry out a status query and a voltage command.
   */
  datatype Pc =
    | Polling
    | Clearing
    | Testing(k: nat)
    | Answering
    | FindColon(i: nat)
    | FindEnd(target: byte, start: nat, i: nat)
    | Save(start: nat, end: nat)
    | Terminate(start: nat, end: nat, saved: byte)
    | SkipSpace(i: nat, end: nat, saved: byte)
    | ReadDigits(i: nat, negative: bool, magnitude: word, end: nat, saved: byte)
    | Restore(end: nat, saved: byte, value: int)
    | Done(value: int)

  datatype System = System(rx: Rx, pc: Pc)

  datatype Event = Byte(b: byte) | Main

  /** The seven comparisons, three for "get_ST" and four for "set_PO..V": position and character. */
  function TestAt(k: nat): (nat, byte) {
    match k
    case 0 => (0, 103)
    case 1 => (4, 83)
    case 2 => (5, 84)
    case 3 => (0, 115)
    case 4 => (4, 80)
    case 5 => (5, 79)
    case _ => (8, 86)
  }

  /** All indices of the parser lie in the buffer, and at its last byte it only ever puts back a NUL. */
  ghost predicate ValidPc(pc: Pc) {
    match pc
    case Testing(k) => k < 7
    case FindColon(i) => i < FRAME_SIZE
    case FindEnd(target, start, i) => start <= i < FRAME_SIZE && target in {SEMICOLON, CR, LF, NUL}
    case Save(start, end) => start <= end < FRAME_SIZE
    case Terminate(start, end, saved) => start <= end < FRAME_SIZE && (end == FRAME_SIZE - 1 ==> saved == NUL)
    case SkipSpace(i, end, saved) => i < FRAME_SIZE && end < FRAME_SIZE && (end == FRAME_SIZE - 1 ==> saved == NUL)
    case ReadDigits(i, _, _, end, saved) =>
      i < FRAME_SIZE && end < FRAME_SIZE && (end == FRAME_SIZE - 1 ==> saved == NUL)
    case Restore(end, saved, _) => end < FRAME_SIZE && (end == FRAME_SIZE - 1 ==> saved == NUL)
    case _ => true
  }

  ghost predicate Valid(s: System) {
    ValidRx(s.rx) && ValidPc(s.pc)
  }

  /** The delimiter that is looked for once `target` is known to be missing. */
  function NextTarget(target: byte): byte {
    if target == SEMICOLON then CR else if target == CR then LF else NUL
  }

  function AfterTest(k: nat, equal: bool): Pc {
    if equal then
      if k == 2 then Answering else if k == 6 then FindColon(0) else Testing(k + 1)
    else if k < 3 then Testing(3)
    else Polling
  }

  /** The position that an access of the parse reads, or writes. */
  function ReadAt(pc: Pc): nat {
    match pc
    case Testing(k) => TestAt(k).0
    case FindColon(i) => i
    case FindEnd(_, _, i) => i
    case Save(_, end) => end
    case Terminate(_, end, _) => end
    case SkipSpace(i, _, _) => i
    case ReadDigits(i, _, _, _, _) => i
    case Restore(end, _, _) => end
    case _ => 0
  }

  /** Where an access of the parse that finds `c` leads. */
  function PcAfter(pc: Pc, c: byte): Pc {
    match pc
    case Testing(k) => AfterTest(k, c == TestAt(k).1)
    case FindColon(i) =>
      if c == COLON then FindEnd(SEMICOLON, i + 1, i + 1) else if c == NUL then Done(0) else FindColon(i + 1)
    case FindEnd(target, start, i) =>
      if c == target then Save(start, i)
      else if c == NUL then FindEnd(NextTarget(target), start, start)
      else FindEnd(target, start, i + 1)
    case Save(start, end) => Terminate(start, end, c)
    case Terminate(start, end, saved) => SkipSpace(start, end, saved)
    case SkipSpace(i, end, saved) =>
      if IsSpace(c) then SkipSpace(i + 1, end, saved)
      else ReadDigits(if c == MINUS || c == PLUS then i + 1 else i, c == MINUS, 0, end, saved)
    case ReadDigits(i, negative, magnitude, end, saved) =>
      if IsDigit(c) then ReadDigits(i + 1, negative, WithDigit(magnitude, c - 48), end, saved)
      else Restore(end, saved, ToInt16(if negative then -(magnitude as int) else magnitude))
    case Restore(_, _, value) => Done(value)
    case _ => pc
  }

  lemma StaysInBuffer(pc: Pc, c: byte)
    requires ValidPc(pc) && Parsing(pc) && (ReadAt(pc) == FRAME_SIZE - 1 ==> c == NUL)
    ensures ReadAt(pc) < FRAME_SIZE && ValidPc(PcAfter(pc, c)) && Budget(PcAfter(pc, c)) < Budget(pc)
    ensures !Parsing(PcAfter(pc, c)) ==> PcAfter(pc, c).Done? || PcAfter(pc, c).Answering? || PcAfter(pc, c).Polling?
  {
    hide WithDigit, ToInt16;
  }

  ghost function MainStep(s: System): (r: System)
    requires Valid(s)
    ensures Valid(r)
    ensures Parsing(s.pc) ==> Budget(r.pc) < Budget(s.pc)
    ensures Parsing(s.pc) && !Parsing(r.pc) ==> r.pc.Done? || r.pc.Answering? || r.pc.Polling?
  {
    match s.pc
    case Polling => if s.rx.complete then s.(pc := Clearing) else s
    case Clearing => System(s.rx.(complete := false), Testing(0))
    case Answering => s.(pc := Polling)
    case Done(_) => s.(pc := Polling)
    case _ =>
      ReadsWithin(s.pc);
      var c := s.rx.buff[ReadAt(s.pc)];
      StaysInBuffer(s.pc, c);
      System(s.rx.(buff := BuffAfter(s.rx.buff, s.pc)), PcAfter(s.pc, c))
  }

  lemma ReadsWithin(pc: Pc)
    requires ValidPc(pc)
    ensures ReadAt(pc) < FRAME_SIZE
  {
  }

  /** The buffer after an access of the parse. */
  ghost function BuffAfter(buff: seq<byte>, pc: Pc): (r: seq<byte>)
    requires |buff| == FRAME_SIZE && buff[FRAME_SIZE - 1] == NUL && ValidPc(pc)
    ensures |r| == FRAME_SIZE && r[FRAME_SIZE - 1] == NUL
  {
    match pc
    case Terminate(_, end, _) => buff[end := NUL]
    case Restore(end, saved, _) => buff[end := saved]
    case _ => buff
  }

  /** From the first comparison on until the value is there or the line is dismissed. */
  ghost predicate Parsing(pc: Pc) {
    !pc.Polling? && !pc.Clearing? && !pc.Answering? && !pc.Done?
  }

  /** An upper bound on the main-loop steps left in the parse. */
  ghost function Budget(pc: Pc): int {
    match pc
    case Testing(k) => 1010 - k
    case FindColon(i) => 1000 - i
    case FindEnd(target, _, i) =>
      (if target == SEMICOLON then 860 else if target == CR then 720 else if target == LF then 580 else 440) - i
    case Save(_, _) => 312
    case Terminate(_, _, _) => 311
    case SkipSpace(i, _, _) => 310 - i
    case ReadDigits(i, _, _, _, _) => 180 - i
    case Restore(_, _, _) => 1
    case _ => 0
  }

  // ---------------------------------------------------------------------------
  // Every interleaving
  // ---------------------------------------------------------------------------

  ghost function Step(s: System, e: Event): (r: System)
    requires Valid(s)
    ensures Valid(r)
  {
    match e
    case Byte(b) => s.(rx := Received(s.rx, b))
    case Main => MainStep(s)
  }

  /**
   Whatever the order of interrupts and main-loop steps, the count stays at most 127, the last
   byte stays NUL, a completed line leaves the count at 0 and no scan leaves the buffer.
   */
  ghost function Run(s: System, events: seq<Event>): (r: System)
    requires Valid(s)
    ensures Valid(r)
  {
    if events == [] then s else Step(Run(s, events[..|events| - 1]), events[|events| - 1])
  }

  lemma RunOneMore(s: System, events: seq<Event>, e: Event)
    requires Valid(s)
    ensures Run(s, events + [e]) == Step(Run(s, events), e)
  {
    assert (events + [e])[..|events|] == events;
  }

  lemma {:induction false} RunAppends(s: System, first: seq<Event>, second: seq<Event>)
    requires Valid(s)
    ensures Run(s, first + second) == Run(Run(s, first), second)
  {
    if second == [] {
      assert first + second == first;
    } else {
      assert (first + second)[..|first + second| - 1] == first + second[..|second| - 1];
      RunAppends(s, first, second[..|second| - 1]);
    }
  }

  /** The main loop parses before each of the events. */
  ghost predicate ParsesThroughout(s: System, events: seq<Event>)
    requires Valid(s)
  {
    events == [] || (ParsesThroughout(s, events[..|events| - 1]) && Parsing(Run(s, events[..|events| - 1]).pc))
  }

  /** The events of a whole parse, which ends with the last of them. */
  ghost predicate IsParse(s: System, events: seq<Event>)
    requires ValidRx(s.rx) && s.pc == Testing(0)
  {
    ParsesThroughout(s, events) && !Parsing(Run(s, events).pc)
  }

  lemma {:induction false} ParsesAt(s: System, events: seq<Event>, i: nat)
    requires Valid(s) && ParsesThroughout(s, events) && i < |events|
    ensures Parsing(Run(s, events[..i]).pc)
  {
    var n := |events| - 1;
    if i < n {
      ParsesAt(s, events[..n], i);
      assert events[..n][..i] == events[..i];
    }
  }

  lemma ParseStarts(rx: Rx)
    requires ValidRx(rx)
    ensures Valid(System(rx, Testing(0))) && Run(System(rx, Testing(0)), []) == System(rx, Testing(0))
  {
  }

  lemma ValidParts(s: System)
    requires Valid(s)
    ensures ValidRx(s.rx) && forall rx :: ValidRx(rx) ==> Valid(System(rx, s.pc))
  {
  }

  ghost function MainSteps(events: seq<Event>): nat {
    if events == [] then 0
    else MainSteps(events[..|events| - 1]) + if events[|events| - 1].Main? then 1 else 0
  }

  /** No stream of interrupts can keep a parse from ending: it ends within `Budget` main-loop steps. */
  lemma {:induction false} ParseEnds(s: System, events: seq<Event>)
    requires Valid(s) && ParsesThroughout(s, events) && Parsing(Run(s, events).pc)
    ensures MainSteps(events) + Budget(Run(s, events).pc) <= Budget(s.pc) <= 1010
    ensures MainSteps(events) < 1010
  {
    if events == [] {
      BudgetIsPositive(s.pc);
    } else {
      ParseEnds(s, events[..|events| - 1]);
      BudgetIsPositive(Run(s, events).pc);
    }
  }

  lemma BudgetIsPositive(pc: Pc)
    requires ValidPc(pc) && Parsing(pc)
    ensures 0 < Budget(pc) <= 1010
  {
  }

  function BytesIn(events: seq<Event>): seq<byte> {
    if events == [] then []
    else
      var last := events[|events| - 1];
      BytesIn(events[..|events| - 1]) + if last.Byte? then [last.b] else []
  }

  lemma {:induction false} BytesAppend(a: seq<Event>, b: seq<Event>)
    ensures BytesIn(a + b) == BytesIn(a) + BytesIn(b)
  {
    if b == [] {
      assert a + b == a;
    } else {
      assert (a + b)[..|a + b| - 1] == a + b[..|b| - 1];
      BytesAppend(a, b[..|b| - 1]);
    }
  }

  /** The shared variables after `bytes` if nothing were parsed meanwhile. */
  ghost function Fed(rx: Rx, bytes: seq<byte>): (r: Rx)
    requires ValidRx(rx)
    ensures ValidRx(r)
  {
    if bytes == [] then rx else Received(Fed(rx, bytes[..|bytes| - 1]), bytes[|bytes| - 1])
  }

  lemma {:induction false} FedAppends(rx: Rx, a: seq<byte>, b: seq<byte>)
    requires ValidRx(rx)
    ensures Fed(rx, a + b) == Fed(Fed(rx, a), b)
  {
    if b == [] {
      assert a + b == a;
    } else {
      assert (a + b)[..|a + b| - 1] == a + b[..|b| - 1];
      FedAppends(rx, a, b[..|b| - 1]);
    }
  }

  // ---------------------------------------------------------------------------
  // What a parse does to reception
  // ---------------------------------------------------------------------------

  /** The position the parser has chosen for its temporary NUL, once it has. */
  function Touched(pc: Pc): set<nat> {
    match pc
    case Terminate(_, end, _) => {end}
    case SkipSpace(_, end, _) => {end}
    case ReadDigits(_, _, _, end, _) => {end}
    case Restore(end, _, _) => {end}
    case _ => {}
  }

  /** Reception has gone as in `clean`, except at the touched position. */
  ghost predicate Undisturbed(s: System, clean: Rx) {
    && Valid(s) && ValidRx(clean)
    && s.rx.cnt == clean.cnt && s.rx.complete == clean.complete
    && forall j :: 0 <= j < FRAME_SIZE && j !in Touched(s.pc) ==> s.rx.buff[j] == clean.buff[j]
  }

  lemma ByteLeavesUndisturbed(s: System, clean: Rx, b: byte)
    requires Undisturbed(s, clean)
    ensures Undisturbed(Step(s, Byte(b)), Received(clean, b))
  {
  }

  lemma MainLeavesUndisturbed(s: System, clean: Rx)
    requires Undisturbed(s, clean) && Parsing(s.pc) && !s.pc.Restore?
    ensures Undisturbed(MainStep(s), clean)
  {
  }

  /**
   Up to the restoration, bytes that arrive during a parse are stored as if there were no parse,
   except at the single position of the temporary NUL.
   */
  lemma {:induction false} ParseTouchesOneByte(s: System, events: seq<Event>)
    requires Valid(s) && Touched(s.pc) == {} && ParsesThroughout(s, events) && Parsing(Run(s, events).pc)
    ensures Undisturbed(Run(s, events), Fed(s.rx, BytesIn(events)))
  {
    if events != [] {
      var before, last := events[..|events| - 1], events[|events| - 1];
      ParseTouchesOneByte(s, before);
      var r, clean := Run(s, before), Fed(s.rx, BytesIn(before));
      if last.Byte? {
        ByteLeavesUndisturbed(r, clean, last.b);
        assert BytesIn(events)[..|BytesIn(before)|] == BytesIn(before);
      } else {
        MainLeavesUndisturbed(r, clean);
        assert BytesIn(events) == BytesIn(before);
      }
    }
  }

  /** The parser has saved the character that ends the number. */
  predicate HasSaved(pc: Pc) {
    pc.Terminate? || pc.SkipSpace? || pc.ReadDigits? || pc.Restore?
  }

  lemma SavedStep(s: System)
    requires Valid(s) && Parsing(s.pc) && HasSaved(MainStep(s).pc)
    ensures var pc := MainStep(s).pc;
      && (s.pc.Save? || HasSaved(s.pc)) && s.pc.end == pc.end
      && pc.saved == (if s.pc.Save? then s.rx.buff[s.pc.end] else s.pc.saved)
  {
  }

  lemma NothingMasked(s: System, clean: Rx)
    requires Undisturbed(s, clean) && s.pc.Save?
    ensures s.rx.buff[s.pc.end] == clean.buff[s.pc.end]
  {
  }

  /** The saved character is what reception alone had there when it was saved, before event `k`. */
  lemma {:induction false} SavedAt(s: System, events: seq<Event>) returns (k: nat)
    requires Valid(s) && Touched(s.pc) == {} && ParsesThroughout(s, events) && HasSaved(Run(s, events).pc)
    ensures var pc := Run(s, events).pc;
      && k < |events| && events[k] == Main
      && Run(s, events[..k]).pc.Save? && Run(s, events[..k]).pc.end == pc.end
      && pc.saved == Fed(s.rx, BytesIn(events[..k])).buff[pc.end]
  {
    hide MainStep, Received, Fed, BytesIn, Undisturbed, Parsing;
    var before, last := events[..|events| - 1], events[|events| - 1];
    var r := Run(s, before);
    if last.Main? {
      SavedStep(r);
    }
    if r.pc.Save? {
      SaveIsParsing(r.pc);
      ParseTouchesOneByte(s, before);
      NothingMasked(r, Fed(s.rx, BytesIn(before)));
      k := |before|;
    } else {
      k := SavedAt(s, before);
      assert events[..k] == before[..k];
    }
  }

  lemma SaveIsParsing(pc: Pc)
    requires pc.Save?
    ensures Parsing(pc)
  {
  }

  /**
   With `early` when the character was saved and `late` now, reception is put back to `early` at
   the one position; which changes nothing exactly when that position is as it was.
   */
  ghost predicate PutBack(restored: Rx, pc: Pc, early: Rx, late: Rx) {
    && pc.Restore? && pc.end < |early.buff| == |late.buff| && pc.saved == early.buff[pc.end]
    && restored == late.(buff := late.buff[pc.end := early.buff[pc.end]])
    && (restored == late <==> late.buff[pc.end] == early.buff[pc.end])
  }

  lemma Restored(r: System, early: Rx, late: Rx)
    requires Undisturbed(r, late) && r.pc.Restore? && ValidRx(early) && r.pc.saved == early.buff[r.pc.end]
    ensures PutBack(MainStep(r).rx, r.pc, early, late)
  {
    assert MainStep(r).rx.buff == late.buff[r.pc.end := r.pc.saved];
    assert late.buff[r.pc.end] == r.pc.saved ==> late.buff[r.pc.end := r.pc.saved] == late.buff;
  }

  lemma RestoreIsParsing(pc: Pc)
    requires pc.Restore?
    ensures Parsing(pc) && HasSaved(pc)
  {
  }

  /**
   The restoration is where a byte can be lost: it puts the character saved before event `k` back
   over whatever has arrived at its position since.  So a parse leaves reception undisturbed
   exactly when the bytes since then have not changed that position.
   */
  lemma RestorationExactlyWhen(s: System, events: seq<Event>) returns (k: nat)
    requires Valid(s) && Touched(s.pc) == {} && ParsesThroughout(s, events) && Run(s, events).pc.Restore?
    ensures k < |events| && events[k] == Main && Run(s, events[..k]).pc.Save?
    ensures var r, early, late := Run(s, events), Fed(s.rx, BytesIn(events[..k])), Fed(s.rx, BytesIn(events));
      PutBack(MainStep(r).rx, r.pc, early, late)
  {
    hide Run, Fed, BytesIn, ParsesThroughout, Received, MainStep, Undisturbed, Parsing;
    RestoreIsParsing(Run(s, events).pc);
    ParseTouchesOneByte(s, events);
    k := SavedAt(s, events);
    Restored(Run(s, events), Fed(s.rx, BytesIn(events[..k])), Fed(s.rx, BytesIn(events)));
  }

  // ---------------------------------------------------------------------------
  // A parse that is not interrupted
  // ---------------------------------------------------------------------------

  /** Where the main loop alone gets to: to the end of the parse, or `early`, to the restoration. */
  ghost function Finish(s: System, early: bool): System
    requires Valid(s)
    decreases Budget(s.pc)
  {
    if !Parsing(s.pc) || (early && s.pc.Restore?) then s else Finish(MainStep(s), early)
  }

  /** The end of a parse of `rx` whose number ends at `end` and is `value`. */
  ghost function Ended(rx: Rx, end: nat, value: int, early: bool): System
    requires end < |rx.buff|
  {
    if early then System(rx.(buff := rx.buff[end := NUL]), Restore(end, rx.buff[end], value))
    else System(rx, Done(value))
  }

  lemma FinishStep(s: System, r: System, early: bool)
    requires Valid(s) && Parsing(s.pc) && !(early && s.pc.Restore?) && r == MainStep(s)
    ensures Finish(s, early) == Finish(r, early)
  {
  }

  /** The main-loop step within a number. */
  lemma DigitStep(s: System, number: nat) returns (next: nat)
    requires Valid(s) && s.pc.ReadDigits? && s.pc.magnitude == number % 0x1_0000 && IsDigit(s.rx.buff[s.pc.i])
    ensures next == 10 * number + (s.rx.buff[s.pc.i] - 48)
    ensures var w := WithDigit(s.pc.magnitude, s.rx.buff[s.pc.i] - 48);
      w == next % 0x1_0000 && MainStep(s) == s.(pc := ReadDigits(s.pc.i + 1, s.pc.negative, w, s.pc.end, s.pc.saved))
  {
    next := ShiftedDigit(number, s.pc.magnitude, s.rx.buff[s.pc.i] - 48);
  }

  /** The main-loop step at its end. */
  lemma NumberStep(s: System, number: nat)
    requires Valid(s) && s.pc.ReadDigits? && s.pc.magnitude == number % 0x1_0000 && !IsDigit(s.rx.buff[s.pc.i])
    ensures var value := ToInt16(if s.pc.negative then -(number as int) else number);
      MainStep(s) == s.(pc := Restore(s.pc.end, s.pc.saved, value))
  {
    SameInt16(number, s.pc.magnitude);
  }

  lemma FinishRestore(s: System, early: bool)
    requires Valid(s) && s.pc.Restore?
    ensures Finish(s, early) == if early then s
      else System(s.rx.(buff := s.rx.buff[s.pc.end := s.pc.saved]), Done(s.pc.value))
  {
    var r := MainStep(s);
    assert !early ==> Finish(s, early) == Finish(r, early) == r;
  }

  /** `number` is the number read so far, of which the firmware holds 16 bits. */
  lemma {:induction false} FinishDigits(s: System, number: nat, early: bool)
    requires Valid(s) && s.pc.ReadDigits? && Terminated(s.rx.buff, s.pc.i) && s.pc.magnitude == number % 0x1_0000
    ensures var digits := Digits(s.rx.buff, s.pc.i, number);
      var value := ToInt16(if s.pc.negative then -digits else digits);
      Finish(s, early) == Finish(System(s.rx, Restore(s.pc.end, s.pc.saved, value)), early)
    decreases Budget(s.pc)
  {
    hide MainStep, WithDigit;
    var r := MainStep(s);
    FinishStep(s, r, early);
    if IsDigit(s.rx.buff[s.pc.i]) {
      var next := DigitStep(s, number);
      FinishDigits(r, next, early);
    } else {
      NumberStep(s, number);
    }
  }

  lemma SpaceStep(s: System)
    requires Valid(s) && s.pc.SkipSpace?
    ensures var c, i := s.rx.buff[s.pc.i], s.pc.i;
      MainStep(s) == s.(pc := if IsSpace(c) then SkipSpace(i + 1, s.pc.end, s.pc.saved)
        else ReadDigits(if c == MINUS || c == PLUS then i + 1 else i, c == MINUS, 0, s.pc.end, s.pc.saved))
  {
  }

  lemma {:induction false} FinishNumber(s: System, early: bool)
    requires Valid(s) && s.pc.SkipSpace? && Terminated(s.rx.buff, s.pc.i)
    ensures Finish(s, early) == Finish(System(s.rx, Restore(s.pc.end, s.pc.saved, Atoi(s.rx.buff, s.pc.i))), early)
    decreases Budget(s.pc)
  {
    hide MainStep;
    var r := MainStep(s);
    SpaceStep(s);
    FinishStep(s, r, early);
    if IsSpace(s.rx.buff[s.pc.i]) {
      FinishNumber(r, early);
    } else {
      FinishDigits(r, 0, early);
    }
  }

  /** The rest of the parse once the end of the number is known. */
  lemma FinishFromEnd(s: System, early: bool)
    requires Valid(s) && s.pc.Save? && Terminated(s.rx.buff[s.pc.end := NUL], s.pc.start)
    ensures Finish(s, early) == Ended(s.rx, s.pc.end, Atoi(s.rx.buff[s.pc.end := NUL], s.pc.start), early)
  {
    var r := MainStep(MainStep(s));
    assert Finish(s, early) == Finish(MainStep(s), early) == Finish(r, early);
    FinishNumber(r, early);
    FinishRestore(System(r.rx, Restore(r.pc.end, r.pc.saved, Atoi(r.rx.buff, r.pc.i))), early);
    assert r.rx.buff[s.pc.end := s.rx.buff[s.pc.end]] == s.rx.buff;
  }

  lemma EndStep(s: System)
    requires Valid(s) && s.pc.FindEnd?
    ensures var c, start, i, target := s.rx.buff[s.pc.i], s.pc.start, s.pc.i, s.pc.target;
      && (c != target && c != NUL ==> i + 1 < FRAME_SIZE)
      && (c == NUL && c != target ==> NextTarget(target) in {SEMICOLON, CR, LF, NUL})
      && MainStep(s) == s.(pc := if c == target then Save(start, i)
                                 else if c == NUL then FindEnd(NextTarget(target), start, start)
                                 else FindEnd(target, start, i + 1))
  {
  }

  lemma {:induction false} ReachEnd(s: System, early: bool)
    requires Valid(s) && s.pc.FindEnd? && Terminated(s.rx.buff, s.pc.i)
    ensures var k := Scan(s.rx.buff, s.pc.i, s.pc.target);
      Finish(s, early) == if s.rx.buff[k] == s.pc.target then Finish(s.(pc := Save(s.pc.start, k)), early)
        else Finish(s.(pc := FindEnd(NextTarget(s.pc.target), s.pc.start, s.pc.start)), early)
    decreases FRAME_SIZE - s.pc.i
  {
    hide MainStep;
    var r := MainStep(s);
    EndStep(s);
    FinishStep(s, r, early);
    if s.rx.buff[s.pc.i] != s.pc.target && s.rx.buff[s.pc.i] != NUL {
      ReachEnd(r, early);
    }
  }

  lemma FinishFromStart(s: System, early: bool)
    requires Valid(s) && s.pc.FindEnd? && s.pc.target == SEMICOLON && s.pc.i == s.pc.start
    requires Terminated(s.rx.buff, s.pc.start)
    ensures Finish(s, early) == Finish(s.(pc := Save(s.pc.start, EndOf(s.rx.buff, s.pc.start))), early)
  {
    hide MainStep;
    var buff, start := s.rx.buff, s.pc.start;
    ReachEnd(s, early);
    ReachEnd(s.(pc := FindEnd(CR, start, start)), early);
    ReachEnd(s.(pc := FindEnd(LF, start, start)), early);
    ReachEnd(s.(pc := FindEnd(NUL, start, start)), early);
    if buff[Scan(buff, start, LF)] == NUL {
      ScanPastNothing(buff, start, LF);
    }
  }

  lemma ColonStep(s: System)
    requires Valid(s) && s.pc.FindColon?
    ensures var c, i := s.rx.buff[s.pc.i], s.pc.i;
      && (c != NUL ==> i + 1 < FRAME_SIZE)
      && MainStep(s) == s.(pc := if c == COLON then FindEnd(SEMICOLON, i + 1, i + 1)
                                 else if c == NUL then Done(0) else FindColon(i + 1))
  {
  }

  lemma {:induction false} ReachColon(s: System, early: bool)
    requires Valid(s) && s.pc.FindColon? && Terminated(s.rx.buff, s.pc.i)
    ensures var k := Scan(s.rx.buff, s.pc.i, COLON);
      && (s.rx.buff[k] == COLON ==> k + 1 < FRAME_SIZE)
      && Finish(s, early)
         == Finish(s.(pc := if s.rx.buff[k] == COLON then FindEnd(SEMICOLON, k + 1, k + 1) else Done(0)), early)
    decreases FRAME_SIZE - s.pc.i
  {
    hide MainStep;
    var r := MainStep(s);
    ColonStep(s);
    FinishStep(s, r, early);
    if s.rx.buff[s.pc.i] != COLON && s.rx.buff[s.pc.i] != NUL {
      ReachColon(r, early);
    }
  }

  /** Left alone, the search and conversion yield the value of the line and leave the buffer as it was. */
  lemma ConversionAlone(s: System, early: bool)
    requires Valid(s) && s.pc == FindColon(0)
    ensures Terminated(s.rx.buff, 0)
    ensures var buff := s.rx.buff;
      var k := Scan(buff, 0, COLON);
      if buff[k] != COLON then Finish(s, early) == System(s.rx, Done(ValueOf(buff)))
      else Terminated(buff, k + 1) && Finish(s, early) == Ended(s.rx, EndOf(buff, k + 1), ValueOf(buff), early)
  {
    hide MainStep;
    var buff := s.rx.buff;
    assert buff[FRAME_SIZE - 1] == NUL;
    assert Terminated(buff, 0);
    ReachColon(s, early);
    var k := Scan(buff, 0, COLON);
    if buff[k] == COLON {
      assert Terminated(buff, k + 1);
      FinishFromStart(s.(pc := FindEnd(SEMICOLON, k + 1, k + 1)), early);
      var end := EndOf(buff, k + 1);
      assert buff[end := NUL][end] == NUL;
      FinishFromEnd(s.(pc := Save(k + 1, end)), early);
    }
  }

  /** What a line is to the main loop. */
  ghost function Outcome(rx: Rx): Pc
    requires ValidRx(rx)
  {
    if IsStatusQuery(rx.buff) then Answering
    else if IsVoltageCommand(rx.buff) then
      assert rx.buff[FRAME_SIZE - 1] == NUL;
      Done(ValueOf(rx.buff))
    else Polling
  }

  /** The same of the text: a query is answered, a command executed, and nothing else is anything. */
  lemma OutcomeOfText(rx: Rx)
    requires ValidRx(rx)
    ensures Outcome(rx) == Answering <==>
      rx.buff[0] == Code('g') && rx.buff[4] == Code('S') && rx.buff[5] == Code('T')
    ensures Outcome(rx).Done? <==>
      rx.buff[0] == Code('s') && rx.buff[4] == Code('P') && rx.buff[5] == Code('O') && rx.buff[8] == Code('V')
    ensures Outcome(rx) == Polling || Outcome(rx) == Answering || Outcome(rx).Done?
    ensures rx.buff[..6] == Ascii("get_ST") ==> Outcome(rx) == Answering
  {
    ComparedCharacters(rx.buff);
    if rx.buff[..6] == Ascii("get_ST") {
      StatusQueryText(rx.buff);
    }
  }

  /** The flag does not matter to it. */
  lemma SameOutcome(rx: Rx)
    requires ValidRx(rx)
    ensures Outcome(rx.(complete := false)) == Outcome(rx)
  {
  }

  lemma OneTest(s: System, k: nat, early: bool)
    requires ValidRx(s.rx) && k < 7
    ensures Finish(s.(pc := Testing(k)), early)
      == Finish(s.(pc := AfterTest(k, s.rx.buff[TestAt(k).0] == TestAt(k).1)), early)
  {
  }

  lemma FinishTests(s: System, early: bool)
    requires Valid(s) && s.pc == Testing(0)
    ensures Finish(s, early) ==
      if IsStatusQuery(s.rx.buff) then s.(pc := Answering)
      else if IsVoltageCommand(s.rx.buff) then Finish(s.(pc := FindColon(0)), early)
      else s.(pc := Polling)
  {
    OneTest(s, 0, early);
    OneTest(s, 1, early);
    OneTest(s, 2, early);
    FinishCommandTests(s, early);
    assert Finish(s.(pc := Answering), early) == s.(pc := Answering);
  }

  lemma FinishCommandTests(s: System, early: bool)
    requires ValidRx(s.rx)
    ensures Finish(s.(pc := Testing(3)), early)
      == if IsVoltageCommand(s.rx.buff) then Finish(s.(pc := FindColon(0)), early) else s.(pc := Polling)
  {
    OneTest(s, 3, early);
    OneTest(s, 4, early);
    OneTest(s, 5, early);
    OneTest(s, 6, early);
    assert Finish(s.(pc := Polling), early) == s.(pc := Polling);
  }

  /** Left alone, the parse comes out as the line calls for and leaves the buffer as it was. */
  lemma ParseAlone(s: System)
    requires Valid(s) && s.pc == Testing(0)
    ensures Finish(s, false) == System(s.rx, Outcome(s.rx))
  {
    FinishTests(s, false);
    ConversionAlone(s.(pc := FindColon(0)), false);
  }

  // ---------------------------------------------------------------------------
  // A parse with bytes arriving during it
  // ---------------------------------------------------------------------------

  /** The lowest position of the buffer that the parse still depends on. */
  function Lowest(pc: Pc): nat {
    match pc
    case Testing(_) => 0
    case FindColon(i) => i
    case FindEnd(_, start, _) => start
    case Save(start, _) => start
    case Terminate(start, _, _) => start
    case SkipSpace(i, end, _) => if i < end then i else end
    case ReadDigits(i, _, _, end, _) => if i < end then i else end
    case Restore(end, _, _) => end
    case _ => FRAME_SIZE
  }

  /** The shared variables as they will be once the saved character is back. */
  ghost function Unmasked(s: System): (r: Rx)
    requires Valid(s)
    ensures ValidRx(r)
  {
    if HasSaved(s.pc) then s.rx.(buff := s.rx.buff[s.pc.end := s.pc.saved]) else s.rx
  }

  /** From position `from` on the byte leaves the buffer as it is. */
  ghost predicate Leaves(rx: Rx, b: byte, from: nat)
    requires ValidRx(rx)
  {
    forall j :: from <= j < FRAME_SIZE ==> Received(rx, b).buff[j] == rx.buff[j]
  }

  /** The event is no byte that changes a position the parse still depends on, with the temporary NUL or without. */
  ghost predicate Unnoticed(s: System, e: Event)
    requires Valid(s)
  {
    e.Byte? ==> Leaves(s.rx, e.b, Lowest(s.pc)) && Leaves(Unmasked(s), e.b, Lowest(s.pc))
  }

  /** A byte that lands behind the parse is one of these; so is one that is stored over its equal. */
  lemma BehindIsUnnoticed(s: System, b: byte)
    requires Valid(s)
    requires !s.rx.complete && s.rx.cnt < FRAME_SIZE - 1 ==>
      || s.rx.cnt + (if b == LF then 2 else 1) <= Lowest(s.pc)
      || (b != LF && s.rx.buff[s.rx.cnt] == b == Unmasked(s).buff[s.rx.cnt])
    ensures Unnoticed(s, Byte(b))
  {
  }

  /** A parse that no byte changes the text of. */
  ghost predicate StaysAhead(s: System, events: seq<Event>)
    requires Valid(s)
  {
    events == [] ||
      var before := events[..|events| - 1];
      StaysAhead(s, before) && Parsing(Run(s, before).pc) && Unnoticed(Run(s, before), events[|events| - 1])
  }

  /** The same state of the parse, with the same text from where it still depends on it. */
  ghost predicate Follows(s: System, t: System) {
    && Valid(s) && Valid(t) && s.pc == t.pc
    && forall j :: Lowest(s.pc) <= j < FRAME_SIZE ==> s.rx.buff[j] == t.rx.buff[j]
  }

  lemma MainFollows(s: System, t: System)
    requires Follows(s, t) && Parsing(s.pc)
    ensures Follows(MainStep(s), MainStep(t))
  {
  }

  lemma ByteFollows(s: System, t: System, b: byte)
    requires Follows(s, t) && Unnoticed(s, Byte(b))
    ensures Follows(Step(s, Byte(b)), t)
  {
  }

  /** The main-loop steps of `events` alone. */
  ghost function Alone(t: System, events: seq<Event>): (r: System)
    requires Valid(t)
    ensures Valid(r)
  {
    if events == [] then t
    else
      var r := Alone(t, events[..|events| - 1]);
      if events[|events| - 1].Main? then MainStep(r) else r
  }

  lemma {:induction false} BytesAreNotNoticed(s: System, t: System, events: seq<Event>)
    requires Follows(s, t) && StaysAhead(s, events)
    ensures Follows(Run(s, events), Alone(t, events))
    ensures Finish(t, false) == Finish(Alone(t, events), false)
  {
    hide MainStep, Received, Follows, Unnoticed, Finish;
    SamePc(s, t);
    if events != [] {
      var before, last := events[..|events| - 1], events[|events| - 1];
      BytesAreNotNoticed(s, t, before);
      var r, u := Run(s, before), Alone(t, before);
      SamePc(r, u);
      match last {
        case Byte(b) => ByteFollows(r, u, b);
        case Main =>
          MainFollows(r, u);
          FinishStep(u, MainStep(u), false);
      }
    }
  }

  lemma SamePc(s: System, t: System)
    requires Follows(s, t)
    ensures Valid(s) && Valid(t) && s.pc == t.pc
  {
  }

  lemma MainKeepsUnmasked(s: System)
    requires Valid(s) && Parsing(s.pc)
    ensures Unmasked(MainStep(s)) == Unmasked(s)
  {
    assert Unmasked(MainStep(s)).buff == Unmasked(s).buff;
  }

  lemma ByteKeepsUnmasked(s: System, b: byte)
    requires Valid(s) && Unnoticed(s, Byte(b))
    ensures Unmasked(Step(s, Byte(b))) == Received(Unmasked(s), b)
  {
    if HasSaved(s.pc) {
      assert Lowest(s.pc) <= s.pc.end;
      assert Received(Unmasked(s), b).buff[s.pc.end] == s.pc.saved;
    }
    assert Unmasked(Step(s, Byte(b))).buff == Received(Unmasked(s), b).buff;
  }

  lemma {:induction false} ReceptionUnmasked(s: System, events: seq<Event>)
    requires Valid(s) && Touched(s.pc) == {} && StaysAhead(s, events)
    ensures Unmasked(Run(s, events)) == Fed(s.rx, BytesIn(events))
  {
    hide MainStep, Received, Unnoticed, Unmasked;
    if events == [] {
      NothingSaved(s);
    } else {
      var before, last := events[..|events| - 1], events[|events| - 1];
      ReceptionUnmasked(s, before);
      var r := Run(s, before);
      match last {
        case Byte(b) =>
          ByteKeepsUnmasked(r, b);
          assert BytesIn(events)[..|BytesIn(before)|] == BytesIn(before);
        case Main =>
          MainKeepsUnmasked(r);
          assert BytesIn(events) == BytesIn(before);
      }
    }
  }

  lemma NothingSaved(s: System)
    requires Valid(s) && (Touched(s.pc) == {} || !Parsing(s.pc))
    ensures Unmasked(s) == s.rx
  {
  }

  /**
   As long as no byte that arrives changes the text the parse still depends on, the parse comes out
   as the line calls for as it stood when the parse began, and no byte is lost.
   */
  lemma InterleavedParse(s: System, events: seq<Event>)
    requires Valid(s) && s.pc == Testing(0) && StaysAhead(s, events) && !Parsing(Run(s, events).pc)
    ensures Run(s, events) == System(Fed(s.rx, BytesIn(events)), Outcome(s.rx))
  {
    hide MainStep, Received;
    BytesAreNotNoticed(s, s, events);
    ParseAlone(s);
    var r, u := Run(s, events), Alone(s, events);
    SamePc(r, u);
    assert Finish(u, false) == u;
    ReceptionUnmasked(s, events);
    NothingSaved(r);
  }

  // ---------------------------------------------------------------------------
  // A parse that is overtaken
  // ---------------------------------------------------------------------------

  function Mains(n: nat): (events: seq<Event>)
    ensures |events| == n
  {
    seq(n, _ => Main)
  }

  function Repeated(b: byte, n: nat): (bytes: seq<byte>)
    ensures |bytes| == n && forall i :: 0 <= i < n ==> bytes[i] == b
  {
    seq(n, _ => b)
  }

  function Arriving(bytes: seq<byte>): (events: seq<Event>)
    ensures |events| == |bytes|
  {
    seq(|bytes|, i requires 0 <= i < |bytes| => Byte(bytes[i]))
  }

  /** The uninterrupted parse is the run of main-loop steps alone. */
  lemma {:induction false} FinishIsRun(s: System, early: bool) returns (n: nat)
    requires Valid(s)
    ensures Run(s, Mains(n)) == Finish(s, early)
    ensures ParsesThroughout(s, Mains(n)) && BytesIn(Mains(n)) == []
    decreases Budget(s.pc)
  {
    hide MainStep;
    if !Parsing(s.pc) || (early && s.pc.Restore?) {
      n := 0;
    } else {
      var k := FinishIsRun(MainStep(s), early);
      n := k + 1;
      FirstMain(s, k);
    }
  }

  lemma {:induction false} FirstMain(s: System, k: nat)
    requires Valid(s) && Parsing(s.pc) && ParsesThroughout(MainStep(s), Mains(k)) && BytesIn(Mains(k)) == []
    ensures Run(s, Mains(k + 1)) == Run(MainStep(s), Mains(k))
    ensures ParsesThroughout(s, Mains(k + 1)) && BytesIn(Mains(k + 1)) == []
  {
    hide MainStep;
    assert Mains(k + 1)[..k] == Mains(k);
    if k == 0 {
      assert Run(s, Mains(0)) == s && ParsesThroughout(s, Mains(0));
    } else {
      assert Mains(k)[..k - 1] == Mains(k - 1);
      FirstMain(s, k - 1);
    }
  }

  /** Bytes that arrive while the main loop does nothing. */
  lemma {:induction false} ArrivingRun(s: System, bytes: seq<byte>)
    requires Valid(s)
    ensures Run(s, Arriving(bytes)) == s.(rx := Fed(s.rx, bytes)) && BytesIn(Arriving(bytes)) == bytes
    ensures Parsing(s.pc) ==> ParsesThroughout(s, Arriving(bytes))
  {
    hide MainStep, Received;
    if bytes != [] {
      var n := |bytes| - 1;
      assert Arriving(bytes)[..n] == Arriving(bytes[..n]);
      ArrivingRun(s, bytes[..n]);
    }
  }

  /** Before a line feed the bytes pile up at the front of the buffer. */
  lemma {:induction false} BytesPileUp(rx: Rx, bytes: seq<byte>)
    requires ValidRx(rx) && rx.cnt == 0 && !rx.complete && LF !in bytes && |bytes| < FRAME_SIZE
    ensures Fed(rx, bytes) == Rx(bytes + rx.buff[|bytes|..], |bytes|, false)
  {
    if bytes != [] {
      var n := |bytes| - 1;
      BytesPileUp(rx, bytes[..n]);
      assert (bytes[..n] + rx.buff[n..])[n := bytes[n]] == bytes + rx.buff[|bytes|..];
    } else {
      assert bytes + rx.buff[0..] == rx.buff;
    }
  }

  lemma ParsesOn(s: System, a: seq<Event>, b: seq<Event>)
    requires Valid(s) && ParsesThroughout(s, a) && ParsesThroughout(Run(s, a), b)
    ensures ParsesThroughout(s, a + b)
    decreases |b|
  {
    hide MainStep, Received;
    if b == [] {
      assert a + b == a;
    } else {
      assert (a + b)[..|a + b| - 1] == a + b[..|b| - 1];
      ParsesOn(s, a, b[..|b| - 1]);
      RunAppends(s, a, b[..|b| - 1]);
    }
  }

  /**
   Every conversion can lose a byte: when the restoration is preceded by enough bytes to reach the
   end of the number, the one that arrives there is overwritten.
   */
  lemma AByteCanBeLost(s: System, b: byte) returns (events: seq<Event>)
    requires Valid(s) && s.pc == FindColon(0) && s.rx.cnt == 0 && !s.rx.complete
    requires Terminated(s.rx.buff, 0) && b != LF
    requires var k := Scan(s.rx.buff, 0, COLON);
      s.rx.buff[k] == COLON && Terminated(s.rx.buff, k + 1)
      && EndOf(s.rx.buff, k + 1) < FRAME_SIZE - 1 && s.rx.buff[EndOf(s.rx.buff, k + 1)] != b
    ensures ParsesThroughout(s, events) && Run(s, events).pc.Restore?
    ensures MainStep(Run(s, events)).rx != Fed(s.rx, BytesIn(events))
  {
    hide MainStep, Received, Run, Finish, Fed, BytesIn, ParsesThroughout;
    var k := Scan(s.rx.buff, 0, COLON);
    var end := EndOf(s.rx.buff, k + 1);
    var n := FinishIsRun(s, true);
    ConversionAlone(s, true);
    var r, bytes := Finish(s, true), Repeated(b, end + 1);
    ArrivingRun(r, bytes);
    events := Mains(n) + Arriving(bytes);
    RunAppends(s, Mains(n), Arriving(bytes));
    ParsesOn(s, Mains(n), Arriving(bytes));
    BytesAppend(Mains(n), Arriving(bytes));
    assert BytesIn(events) == bytes;
    var _ := RestorationExactlyWhen(s, events);
    BytesPileUp(s.rx, bytes);
    assert Fed(s.rx, bytes).buff[end] == b;
  }

  /**
   A byte that arrives ahead of the parse is read as part of the line: a colon at the front makes
   the rest of the command name the number, which reads as 0.
   */
  lemma OvertakenParseReadsZero(s: System)
    requires Valid(s) && s.pc == FindColon(0) && s.rx.cnt == 0 && !s.rx.complete
    requires var c := s.rx.buff[1]; !IsSpace(c) && !IsDigit(c) && c != PLUS && c != MINUS
    ensures Finish(Step(s, Byte(COLON)), false).pc == Done(0)
  {
    var r := Step(s, Byte(COLON));
    var buff := r.rx.buff;
    ConversionAlone(r, false);
    ScanFinds(buff, 0, COLON, 0);
    assert buff[FRAME_SIZE - 1] == NUL;
    var end := EndOf(buff, 1);
    var u := buff[end := NUL];
    assert u[end] == NUL && Terminated(u, 1);
    assert u[1] == buff[1] || u[1] == NUL;
    assert Atoi(u, 1) == 0;
  }

  // ---------------------------------------------------------------------------
  // Lines, one after the other
  // ---------------------------------------------------------------------------

  /** The main loop does not look at the buffer. */
  ghost predicate Waiting(pc: Pc) {
    pc.Polling? || pc.Done? || pc.Answering?
  }

  /** A complete line stands at the front of the buffer, NUL-terminated. */
  ghost predicate Holds(rx: Rx, line: seq<byte>) {
    && ValidRx(rx) && rx.complete && |line| < FRAME_SIZE
    && rx.buff[..|line|] == line && rx.buff[|line|] == NUL
  }

  /** A line that the receiver can take: at most 126 characters and a line feed. */
  predicate IsLine(line: seq<byte>) {
    1 <= |line| <= FRAME_SIZE - 1 && line[|line| - 1] == LF && LF !in line[..|line| - 1]
  }

  /** A line ends up complete, intact and NUL-terminated. */
  lemma LineArrives(rx: Rx, line: seq<byte>)
    requires ValidRx(rx) && rx.cnt == 0 && !rx.complete && IsLine(line)
    ensures Holds(Fed(rx, line), line)
  {
    var n := |line| - 1;
    BytesPileUp(rx, line[..n]);
    var before := Fed(rx, line[..n]);
    assert line == line[..n] + [LF];
    assert Fed(rx, line) == Rx(before.buff[n := LF][n + 1 := NUL], 0, true);
    assert before.buff[n := LF][n + 1 := NUL][..n] == line[..n];
  }

  /** Of a longer line the first 127 characters stay, and its line feed completes it. */
  lemma OverlongLineIsCut(rx: Rx, line: seq<byte>)
    requires ValidRx(rx) && rx.cnt == 0 && !rx.complete && |line| >= 128
    requires line[|line| - 1] == 0x0A && 0x0A !in line[..|line| - 1]
    ensures Fed(rx, line) == Rx(line[..127] + [0], 0, true)
  {
    var n := |line| - 1;
    Overrun(rx, line[..n]);
    assert line[..n][..127] == line[..127];
  }

  lemma {:induction false} Overrun(rx: Rx, bytes: seq<byte>)
    requires ValidRx(rx) && rx.cnt == 0 && !rx.complete && |bytes| >= 127 && LF !in bytes
    ensures Fed(rx, bytes) == Rx(bytes[..127] + [0], 127, false)
  {
    var n := |bytes| - 1;
    if n < 127 {
      BytesPileUp(rx, bytes);
      assert bytes[..127] == bytes && rx.buff[127..] == [0];
    } else {
      Overrun(rx, bytes[..n]);
      assert bytes[..n][..127] == bytes[..127];
    }
  }

  /** While no line is complete a waiting main loop keeps waiting and leaves reception alone. */
  lemma {:induction false} WaitsForLine(s: System, events: seq<Event>)
    requires Valid(s) && Waiting(s.pc) && !s.rx.complete && LF !in BytesIn(events)
    ensures var r := Run(s, events);
      Waiting(r.pc) && !r.rx.complete && r.rx == Fed(s.rx, BytesIn(events))
  {
    if events != [] {
      var before, last := events[..|events| - 1], events[|events| - 1];
      WaitsForLine(s, before);
      if last.Byte? {
        assert last.b in BytesIn(events);
        assert BytesIn(events)[..|BytesIn(before)|] == BytesIn(before);
      } else {
        assert BytesIn(events) == BytesIn(before);
      }
    }
  }

  /** The main loop does not clear the flag during the events. */
  ghost predicate LeavesFlag(s: System, events: seq<Event>)
    requires Valid(s)
  {
    events == [] ||
      var before := events[..|events| - 1];
      LeavesFlag(s, before) && !(Run(s, before).pc.Clearing? && events[|events| - 1].Main?)
  }

  /** Until the main loop clears the flag a complete line stays as it is, whatever arrives. */
  lemma {:induction false} LineKept(s: System, events: seq<Event>)
    requires Valid(s) && (Waiting(s.pc) || s.pc.Clearing?) && s.rx.complete && LeavesFlag(s, events)
    ensures var r := Run(s, events);
      (Waiting(r.pc) || r.pc.Clearing?) && r.rx == s.rx
  {
    hide MainStep, Received;
    if events != [] {
      var before := events[..|events| - 1];
      LineKept(s, before);
      LineKeptByOne(Run(s, before), events[|events| - 1]);
    }
  }

  lemma LineKeptByOne(s: System, e: Event)
    requires Valid(s) && (Waiting(s.pc) || s.pc.Clearing?) && s.rx.complete && !(s.pc.Clearing? && e.Main?)
    ensures var r := Step(s, e);
      (Waiting(r.pc) || r.pc.Clearing?) && r.rx == s.rx
  {
  }

  /**
   One round of the main loop: `wait` until it is about to clear the flag, `parse` with no byte
   noticed, and `rest`, which ends with the line feed of the next line.
   */
  datatype Round = Round(wait: seq<Event>, parse: seq<Event>, rest: seq<Event>)

  ghost function Cleared(s: System, round: Round): (r: System)
    requires Valid(s)
    ensures Valid(r)
  {
    MainStep(Run(s, round.wait))
  }

  ghost function AfterParse(s: System, round: Round): (r: System)
    requires Valid(s)
    ensures Valid(r)
  {
    Run(Cleared(s, round), round.parse)
  }

  ghost function AfterRound(s: System, round: Round): (r: System)
    requires Valid(s)
    ensures Valid(r)
  {
    Run(AfterParse(s, round), round.rest)
  }

  ghost predicate IsRound(s: System, round: Round, next: seq<byte>) {
    && Valid(s) && Waiting(s.pc) && s.rx.complete
    && LeavesFlag(s, round.wait) && Run(s, round.wait).pc.Clearing?
    && StaysAhead(Cleared(s, round), round.parse) && Waiting(AfterParse(s, round).pc)
    && round.rest != [] && round.rest[|round.rest| - 1] == Byte(LF)
    && BytesIn(round.parse) + BytesIn(round.rest) == next && IsLine(next)
  }

  /** In a round the line that stood there comes out as it calls for, and the next one takes its place. */
  lemma RoundSucceeds(s: System, round: Round, next: seq<byte>)
    requires IsRound(s, round, next)
    ensures AfterParse(s, round).pc == Outcome(s.rx)
    ensures Waiting(AfterRound(s, round).pc) && Holds(AfterRound(s, round).rx, next)
  {
    hide MainStep, Received, Waiting, Outcome, Parsing, StaysAhead;
    LineKept(s, round.wait);
    var c, before := Cleared(s, round), round.rest[..|round.rest| - 1];
    ClearStep(Run(s, round.wait));
    EndsWaiting(AfterParse(s, round).pc);
    InterleavedParse(c, round.parse);
    LastByteOf(round.rest);
    var parsed := AfterParse(s, round);
    LineInParts(BytesIn(round.parse), BytesIn(before), next);
    BytesPileUp(c.rx, BytesIn(round.parse));
    WaitsForLine(parsed, before);
    FedAppends(c.rx, BytesIn(round.parse), BytesIn(before));
    FedAppends(c.rx, BytesIn(round.parse) + BytesIn(before), [LF]);
    LineArrives(c.rx, next);
    FeedsOne(Fed(c.rx, BytesIn(round.parse) + BytesIn(before)), LF);
    FinalLineFeed(parsed, round.rest);
  }

  /** A waiting main loop notices a complete line within two of its steps. */
  lemma LineIsNoticed(s: System) returns (wait: seq<Event>)
    requires Valid(s) && Waiting(s.pc) && s.rx.complete
    ensures 1 <= |wait| <= 2 && wait == Mains(|wait|)
    ensures Run(s, wait).pc.Clearing? && LeavesFlag(s, wait)
  {
    assert Mains(1)[..0] == [] && Mains(2)[..1] == Mains(1);
    assert Run(s, []) == s && Run(s, Mains(1)) == MainStep(s);
    if s.pc.Polling? {
      wait := Mains(1);
    } else {
      wait := Mains(2);
    }
  }

  lemma {:induction false} MainsStayAhead(s: System, n: nat)
    requires Valid(s) && ParsesThroughout(s, Mains(n))
    ensures StaysAhead(s, Mains(n))
  {
    hide MainStep;
    if n > 0 {
      assert Mains(n)[..n - 1] == Mains(n - 1);
      MainsStayAhead(s, n - 1);
    }
  }

  /** There are such rounds: from every waiting state with a complete line, for every next line. */
  lemma RoundExists(s: System, next: seq<byte>) returns (round: Round)
    requires Valid(s) && Waiting(s.pc) && s.rx.complete && IsLine(next)
    ensures IsRound(s, round, next)
  {
    hide MainStep, Received, Run, Outcome, Fed;
    var wait := LineIsNoticed(s);
    LineKept(s, wait);
    ClearStep(Run(s, wait));
    var c := MainStep(Run(s, wait));
    var n := FinishIsRun(c, false);
    MainsStayAhead(c, n);
    ParseAlone(c);
    OutcomeWaits(c.rx);
    ArrivingRun(Run(c, Mains(n)), next);
    round := Round(wait, Mains(n), Arriving(next));
    assert [] + next == next;
  }

  lemma OutcomeWaits(rx: Rx)
    requires ValidRx(rx)
    ensures Waiting(Outcome(rx))
  {
  }

  lemma ClearStep(s: System)
    requires Valid(s) && s.pc.Clearing? && s.rx.complete
    ensures var r := MainStep(s);
      r.pc == Testing(0) && r.rx == s.rx.(complete := false) && r.rx.cnt == 0 && Outcome(r.rx) == Outcome(s.rx)
  {
  }

  lemma EndsWaiting(pc: Pc)
    requires Waiting(pc)
    ensures !Parsing(pc)
  {
  }

  lemma LastByteOf(events: seq<Event>)
    requires events != [] && events[|events| - 1] == Byte(LF)
    ensures BytesIn(events) == BytesIn(events[..|events| - 1]) + [LF]
  {
  }

  lemma LineInParts(a: seq<byte>, b: seq<byte>, line: seq<byte>)
    requires a + (b + [LF]) == line && IsLine(line)
    ensures a + b + [LF] == line && a + b == line[..|line| - 1] && LF !in a && LF !in b && |a| < FRAME_SIZE
  {
    assert a + b + [LF] == a + (b + [LF]);
    assert a == line[..|a|];
    assert forall x :: x in a ==> x in line[..|line| - 1];
    assert forall x :: x in b ==> x in a + b;
  }

  lemma FeedsOne(rx: Rx, b: byte)
    requires ValidRx(rx)
    ensures Fed(rx, [b]) == Received(rx, b)
  {
    assert [b][..0] == [];
  }

  lemma FinalLineFeed(s: System, events: seq<Event>)
    requires Valid(s) && events != [] && events[|events| - 1] == Byte(LF)
    ensures var r := Run(s, events[..|events| - 1]);
      Run(s, events) == System(Received(r.rx, LF), r.pc)
  {
  }
}
