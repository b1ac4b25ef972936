/**
 Tag handling of the switch's Ethernet layer: `eth_up` removes a CPU tag and a VLAN tag by
 moving the addresses over them, `eth_down` makes room for a VLAN tag, and for padding, by
 moving bytes the other way.  All moves overlap and are done in place in the packet buffer.
 */
module EthTag {
  import opened Bytes
  import Checksum
  import opened Moves
  import opened Options

  const TYPE_IP: word := 0x0800
  const TYPE_VLAN: word := 0x8100
  const TYPE_REALTEK: word := 0x8899
  const CPUTAG_PROTO: byte := 0x04
  const RLDP_PROTO: byte := 0x23
  const VLANTAG_LEN := 4
  const ADDRESSES := 12
  const HEADER := 14
  const MIN_IP_FRAME := 60
  /** The size of a CPU tag in the shipped configuration. */
  const CPU_TAG_SIZE: byte := 8

  // ---------------------------------------------------------------------------
  // Frames
  // ---------------------------------------------------------------------------

  function TypeOf(frame: seq<byte>): word
    requires |frame| >= HEADER
  {
    WordAt(frame, ADDRESSES)
  }

  /** Frames of the switch vendor: the protocol byte tells CPU-tagged ones from loop detection. */
  predicate IsRealtek(frame: seq<byte>, proto: byte)
    requires |frame| >= HEADER
  {
    TypeOf(frame) == TYPE_REALTEK && |frame| > HEADER && frame[HEADER] == proto
  }

  predicate HasCpuTag(frame: seq<byte>)
    requires |frame| >= HEADER
  {
    IsRealtek(frame, CPUTAG_PROTO)
  }

  /** Loop-detection frames are left alone. */
  predicate IsRldp(frame: seq<byte>)
    requires |frame| >= HEADER
  {
    IsRealtek(frame, RLDP_PROTO)
  }

  /** The bytes of a CPU tag of size `c`, if the frame has one. */
  function CpuTagBytes(frame: seq<byte>, c: nat): (n: nat)
    requires |frame| >= HEADER
    ensures n <= c
  {
    if HasCpuTag(frame) then c else 0
  }

  /** The frame holds what is read of it: the protocol byte of a vendor frame, and the type behind each of its tags. */
  predicate IsWhole(frame: seq<byte>, c: nat) {
    && |frame| >= HEADER
    && (TypeOf(frame) == TYPE_REALTEK ==> |frame| > HEADER)
    && |frame| >= HEADER + CpuTagBytes(frame, c)
    && (WordAt(frame, ADDRESSES + CpuTagBytes(frame, c)) == TYPE_VLAN ==>
          |frame| >= HEADER + CpuTagBytes(frame, c) + VLANTAG_LEN)
  }

  /** How many tag bytes the frame carries behind its addresses. */
  function TagBytes(frame: seq<byte>, c: nat): (n: nat)
    requires IsWhole(frame, c)
    ensures n <= c + VLANTAG_LEN && HEADER + n <= |frame|
  {
    var cpu := CpuTagBytes(frame, c);
    if WordAt(frame, ADDRESSES + cpu) == TYPE_VLAN then cpu + VLANTAG_LEN else cpu
  }

  /** The frame without the `n` bytes behind its addresses. */
  function Without(frame: seq<byte>, n: nat): (r: seq<byte>)
    requires HEADER + n <= |frame|
    ensures |r| >= HEADER
  {
    frame[..ADDRESSES] + frame[ADDRESSES + n..]
  }

  lemma TypeBehind(frame: seq<byte>, n: nat)
    requires HEADER + n <= |frame|
    ensures TypeOf(Without(frame, n)) == WordAt(frame, ADDRESSES + n)
  {
    var r := Without(frame, n);
    assert r[ADDRESSES] == frame[ADDRESSES + n] && r[ADDRESSES + 1] == frame[ADDRESSES + n + 1];
  }

  lemma WithoutTwice(frame: seq<byte>, n: nat, k: nat)
    requires HEADER + n + k <= |frame|
    ensures Without(Without(frame, n), k) == Without(frame, n + k)
  {
  }

  /** The frame that reaches the protocols: addresses, and everything behind the tags. */
  function Stripped(frame: seq<byte>, c: nat): (r: seq<byte>)
    requires IsWhole(frame, c)
    ensures |r| >= HEADER
  {
    Without(frame, TagBytes(frame, c))
  }

  /**
   Stripping takes away the CPU tag, if there is one, and then a VLAN tag, if that is what comes
   next; its type is the type behind the tags.
   */
  lemma StrippedMeans(frame: seq<byte>, c: nat)
    requires IsWhole(frame, c)
    ensures var bare := if HasCpuTag(frame) then Without(frame, c) else frame;
      && (TypeOf(bare) == TYPE_VLAN ==> |bare| >= HEADER + VLANTAG_LEN)
      && Stripped(frame, c) == (if TypeOf(bare) == TYPE_VLAN then Without(bare, VLANTAG_LEN) else bare)
      && TypeOf(Stripped(frame, c)) == WordAt(frame, ADDRESSES + TagBytes(frame, c))
  {
    var cpu := CpuTagBytes(frame, c);
    TypeBehind(frame, cpu);
    assert cpu == 0 ==> Without(frame, cpu) == frame;
    TypeBehind(frame, TagBytes(frame, c));
    if WordAt(frame, ADDRESSES + cpu) == TYPE_VLAN {
      WithoutTwice(frame, cpu, VLANTAG_LEN);
    }
  }

  /**
   Byte by byte: whichever tags stand behind the addresses, a CPU tag of eight bytes that starts with
   0x8899 and protocol 4, a VLAN tag of four that starts with 0x8100, or both in this order, the
   frame is stripped of just these; the type of the rest is none of the two then.
   */
  lemma TagsAreStripped(addr: seq<byte>, cpu: seq<byte>, vlan: seq<byte>, rest: seq<byte>)
    requires |addr| == 12 && |rest| >= 2
    requires cpu == [] || (|cpu| == 8 && cpu[0] == 0x88 && cpu[1] == 0x99 && cpu[2] == 4)
    requires vlan == [] || (|vlan| == 4 && vlan[0] == 0x81 && vlan[1] == 0x00)
    requires vlan == [] ==> !(rest[0] == 0x81 && rest[1] == 0x00)
    requires cpu == [] && vlan == [] ==> !(rest[0] == 0x88 && rest[1] == 0x99)
    ensures var frame := addr + cpu + vlan + rest;
      IsWhole(frame, CPU_TAG_SIZE) && Stripped(frame, CPU_TAG_SIZE) == addr + rest && !IsRldp(frame)
  {
    var frame := addr + cpu + vlan + rest;
    FourParts(addr, cpu, vlan, rest);
    if cpu != [] {
      assert HasCpuTag(frame);
    }
    assert WordAt(frame, 12 + |cpu|) == TYPE_VLAN <==> vlan != [];
    assert Without(frame, |cpu| + |vlan|) == addr + rest;
  }

  lemma FourParts(a: seq<byte>, b: seq<byte>, c: seq<byte>, d: seq<byte>)
    ensures var s := a + b + c + d;
      && s[..|a|] == a && s[|a| + |b| + |c|..] == d
      && (forall k :: 0 <= k < |b| ==> s[|a| + k] == b[k])
      && (forall k :: 0 <= k < |c| ==> s[|a| + |b| + k] == c[k])
      && (forall k :: 0 <= k < |d| ==> s[|a| + |b| + |c| + k] == d[k])
  {
  }

  /** Loop-detection frames are those of type 0x8899 and protocol 0x23. */
  lemma LoopDetection(frame: seq<byte>)
    requires |frame| > 14
    ensures IsRldp(frame) <==> frame[12] == 0x88 && frame[13] == 0x99 && frame[14] == 0x23
  {
  }

  function VlanTag(vid: word): (tag: seq<byte>)
    ensures |tag| == VLANTAG_LEN
  {
    WordBytes(TYPE_VLAN) + WordBytes(vid)
  }

  function Tagged(frame: seq<byte>, vid: word): seq<byte>
    requires |frame| >= HEADER
  {
    frame[..ADDRESSES] + VlanTag(vid) + frame[ADDRESSES..]
  }

  // ---------------------------------------------------------------------------
  // The tag in the buffer
  // ---------------------------------------------------------------------------

  /** `m` with a tag for `vid` written at `at`. */
  ghost function TagWritten(m: seq<byte>, at: nat, vid: word): (r: seq<byte>)
    requires at + VLANTAG_LEN <= |m|
    ensures |r| == |m|
  {
    m[at := 0x81][at + 1 := 0x00][at + 2 := HighByte(vid)][at + 3 := LowByte(vid)]
  }

  lemma PartTagged(a: seq<byte>, x: seq<byte>, z: seq<byte>, vid: word)
    requires |x| == VLANTAG_LEN
    ensures TagWritten(a + x + z, |a|, vid) == a + VlanTag(vid) + z
  {
  }

  /** The contents of the buffer after a tag for `vid`, and `p` bytes of padding, were put into the frame `l2..end`. */
  ghost function TagInserted(m: seq<byte>, l2: nat, end: nat, p: nat, vid: word): (r: seq<byte>)
    requires VLANTAG_LEN + p <= l2 && l2 + HEADER <= end <= |m|
    ensures |r| == |m|
  {
    var n := MovedDown(MovedDown(m, l2, l2 + ADDRESSES, VLANTAG_LEN + p), l2 + ADDRESSES, end, p);
    TagWritten(n, l2 - VLANTAG_LEN - p + ADDRESSES, vid)
  }

  /** The same in parts: headroom, gap, addresses, the rest of the frame, and what follows it. */
  lemma PartsTagInserted(a: seq<byte>, g: seq<byte>, addr: seq<byte>, body: seq<byte>, z: seq<byte>, p: nat, vid: word)
    requires |g| == VLANTAG_LEN + p && |addr| == ADDRESSES && |body| >= 2
    ensures TagInserted(a + g + addr + body + z, |a + g|, |a + g + addr + body|, p, vid)
      == a + (addr + VlanTag(vid) + body) + (g + addr + body)[|addr + body| + VLANTAG_LEN..] + z
  {
    var pad := (g + addr + body)[|addr + body| + VLANTAG_LEN..];
    var x := GapOpened(a, g, addr, body, z, VLANTAG_LEN, p);
    Regrouped(a, addr, x, body, pad, z);
    PartTagged(a + addr, x, body + pad + z, vid);
    Regrouped(a, addr, VlanTag(vid), body, pad, z);
  }

  /** The buffer `r` holds the tagged frame and padding at `start..end`, and is otherwise the buffer `m`. */
  ghost predicate HoldsTagged(
      r: seq<byte>, m: seq<byte>, start: nat, end: nat, frame: seq<byte>, pad: seq<byte>, vid: word)
    requires start <= end <= |m| && |frame| >= HEADER
  {
    && |r| == |m| && r[..start] == m[..start] && r[end..] == m[end..]
    && r[start..end] == Tagged(frame, vid) + pad
  }

  lemma PartsHoldTagged(m: seq<byte>, a: seq<byte>, addr: seq<byte>, body: seq<byte>, pad: seq<byte>, z: seq<byte>,
                        r: seq<byte>, end: nat, vid: word)
    requires |addr| == ADDRESSES && |body| >= 2 && end == |a| + |addr| + VLANTAG_LEN + |body| + |pad|
    requires r == a + (addr + VlanTag(vid) + body) + pad + z && |m| == |r| && m[..|a|] == a && m[end..] == z
    ensures HoldsTagged(r, m, |a|, end, addr + body, pad, vid)
  {
    TaggedParts(addr, body, vid);
    MiddleParts(a, addr + VlanTag(vid) + body, pad, z);
  }

  lemma TagInsertedMeans(m: seq<byte>, l2: nat, end: nat, p: nat, vid: word)
    requires VLANTAG_LEN + p <= l2 && l2 + HEADER <= end <= |m|
    ensures HoldsTagged(TagInserted(m, l2, end, p, vid), m, l2 - VLANTAG_LEN - p, end, m[l2..end], m[end - p..end], vid)
  {
    var start := l2 - VLANTAG_LEN - p;
    var a, g, addr, body, z := Cut(m, start, l2, l2 + ADDRESSES, end);
    var pad := (g + addr + body)[|addr + body| + VLANTAG_LEN..];
    assert pad == m[end - p..end] by {
      LastOf(m, start, end, p);
    }
    PartsTagInserted(a, g, addr, body, z, p, vid);
    PartsHoldTagged(m, a, addr, body, pad, z, TagInserted(m, l2, end, p, vid), end, vid);
  }

  lemma TaggedParts(addr: seq<byte>, body: seq<byte>, vid: word)
    requires |addr| == ADDRESSES && |body| >= 2
    ensures Tagged(addr + body, vid) == addr + VlanTag(vid) + body
  {
  }

  // ---------------------------------------------------------------------------
  // The packet buffer
  // ---------------------------------------------------------------------------

  datatype Pointer = Null | At(index: int)

  datatype L2Format = NoL2 | EthFormat | ArpFormat | LengthFormat

  datatype L3Format = NoL3 | IpFormat | Ipv6Format | RstpFormat

  datatype Verdict = Ignored | Dispatch(etherType: word)

  function TypeAt(mem: array<byte>, i: nat): word
    reads mem
    requires i + 1 < mem.Length
  {
    Word(mem[i], mem[i + 1])
  }

  /** What `eth_up` finds in front of it: the tags of the frame at `l2`, in a CPU tag of `c` bytes. */
  method FindTags(mem: array<byte>, l2: nat, c: byte, ghost frame: seq<byte>)
      returns (ignore: bool, etherType: word, tagOff: byte, cpuTag: Pointer)
    requires l2 + |frame| <= mem.Length && frame == mem[..][l2..l2 + |frame|]
    requires IsWhole(frame, c) && c + VLANTAG_LEN < 0x100
    ensures ignore == IsRldp(frame)
    ensures !ignore ==> tagOff == TagBytes(frame, c) && etherType == WordAt(frame, ADDRESSES + tagOff)
    ensures cpuTag == if HasCpuTag(frame) then At(l2 + ADDRESSES) else Null
  {
    ignore, tagOff, cpuTag := false, 0, Null;
    etherType := TypeAt(mem, l2 + ADDRESSES);
    assert etherType == TypeOf(frame);
    if etherType == TYPE_REALTEK {
      assert mem[l2 + HEADER] == frame[HEADER];
      if mem[l2 + HEADER] == CPUTAG_PROTO {
        cpuTag := At(l2 + ADDRESSES);
        etherType := TypeAt(mem, l2 + ADDRESSES + c);
        tagOff := c;
        assert etherType == WordAt(frame, ADDRESSES + c);
      } else if mem[l2 + HEADER] == RLDP_PROTO {
        return true, etherType, 0, Null;
      }
    }
    if etherType == TYPE_VLAN {
      etherType := TypeAt(mem, l2 + ADDRESSES + tagOff + VLANTAG_LEN);
      tagOff := tagOff + VLANTAG_LEN;
      assert etherType == WordAt(frame, ADDRESSES + tagOff);
    }
  }

  method WriteTag(mem: array<byte>, tag: nat, vid: word)
    requires tag + VLANTAG_LEN <= mem.Length
    modifies mem
    ensures mem[..] == TagWritten(old(mem[..]), tag, vid)
  {
    mem[tag] := 0x81;
    mem[tag + 1] := 0x00;
    mem[tag + 2] := HighByte(vid);
    mem[tag + 3] := LowByte(vid);
  }

  /** Nothing but the bytes from `start` up to `end` differs. */
  ghost predicate SameOutside(m: seq<byte>, r: seq<byte>, start: nat, end: nat) {
    start <= end <= |m| == |r| && r[..start] == m[..start] && r[end..] == m[end..]
  }

  lemma OutsideOfGap(m: seq<byte>, l2: nat, off: nat, end: nat)
    requires l2 + HEADER + off <= end <= |m|
    ensures SameOutside(m, MovedUp(m, l2, l2 + ADDRESSES, off), l2, end)
  {
    MovedUpMeans(m, l2, l2 + ADDRESSES, off);
  }

  /** The addresses of the frame `f` at `l2..end` move up over the `off` bytes behind them. */
  method CloseGap(mem: array<byte>, l2: nat, end: nat, off: byte, ghost f: seq<byte>)
    requires l2 + HEADER + off <= end <= mem.Length && f == mem[..][l2..end]
    modifies mem
    ensures mem[..][l2 + off..end] == Without(f, off)
    ensures SameOutside(old(mem[..]), mem[..], l2, end)
  {
    OutsideOfGap(mem[..], l2, off, end);
    Close(mem[..], l2, end, off, f);
    if off != 0 {
      MoveUp(mem, l2, l2 + ADDRESSES, off);
    } else {
      MovedUpByNothing(mem[..], l2, l2 + ADDRESSES);
    }
  }

  /** The moves and the tag for the frame `l2..end`, with `p` bytes of padding. */
  method ShiftAndTag(mem: array<byte>, l2: nat, end: nat, p: nat, vid: word)
    requires VLANTAG_LEN + p <= l2 && l2 + HEADER <= end <= mem.Length
    modifies mem
    ensures mem[..] == TagInserted(old(mem[..]), l2, end, p, vid)
  {
    MoveDown(mem, l2, l2 + ADDRESSES, VLANTAG_LEN + p);
    if p != 0 {
      MoveDown(mem, l2 + ADDRESSES, end, p);
    } else {
      MovedDownByNothing(mem[..], l2 + ADDRESSES, end);
    }
    var start := l2 - VLANTAG_LEN - p;
    WriteTag(mem, start + ADDRESSES, vid);
  }

  method InsertTagBytes(mem: array<byte>, l2: nat, end: nat, p: nat, vid: word)
    requires VLANTAG_LEN + p <= l2 && l2 + HEADER <= end <= mem.Length
    modifies mem
    ensures var m, r, start := old(mem[..]), mem[..], l2 - VLANTAG_LEN - p;
      && r[..start] == m[..start] && r[end..] == m[end..]
      && r[start..end] == Tagged(m[l2..end], vid) + m[end - p..end]
  {
    TagInsertedMeans(mem[..], l2, end, p, vid);
    ShiftAndTag(mem, l2, end, p, vid);
  }

  class PktBuf {
    const mem: array<byte>
    var l2: nat
    var size: word
    var pktHead: nat
    var cpuTag: Pointer
    var vlanTag: Pointer

    constructor (mem: array<byte>, l2: nat, size: word)
      ensures this.mem == mem && this.l2 == l2 && this.size == size
    {
      this.mem, this.l2, this.size := mem, l2, size;
      pktHead, cpuTag, vlanTag := l2, Null, Null;
    }

    predicate Valid()
      reads this
    {
      l2 + size <= mem.Length
    }

    ghost function Frame(): seq<byte>
      reads this, mem
      requires Valid()
    {
      mem[..][l2..l2 + size]
    }

    /**
     The tag removal of `eth_up` and the type it dispatches on.  The source reads the type behind
     each tag it finds without looking at the size, so the frame must reach that far.
     */
    method Up() returns (verdict: Verdict)
      requires Valid() && IsWhole(Frame(), CPU_TAG_SIZE)
      modifies this, mem
      ensures Valid() && l2 + size == old(l2 + size)
      ensures verdict == Ignored <==> IsRldp(old(Frame()))
      ensures verdict == Ignored ==> Frame() == old(Frame())
      ensures verdict != Ignored ==> Frame() == Stripped(old(Frame()), CPU_TAG_SIZE)
      ensures verdict != Ignored ==> verdict == Dispatch(TypeOf(Frame())) && vlanTag == Null
      ensures verdict != Ignored ==> cpuTag == if HasCpuTag(old(Frame())) then At(old(l2) + 12) else Null
      ensures SameOutside(old(mem[..]), mem[..], old(l2), old(l2 + size))
    {
      ghost var frame := Frame();
      var ignore, etherType, tagOff, tag := FindTags(mem, l2, CPU_TAG_SIZE, frame);
      verdict := Deliver(ignore, etherType, tagOff, tag, frame);
    }

    /** What is done about the tags that were found. */
    method Deliver(ignore: bool, etherType: word, tagOff: byte, tag: Pointer, ghost frame: seq<byte>)
      returns (verdict: Verdict)
      requires Valid() && frame == Frame()
      requires !ignore ==> HEADER + tagOff <= size && etherType == WordAt(frame, ADDRESSES + tagOff)
      modifies this, mem
      ensures Valid() && l2 + size == old(l2 + size)
      ensures ignore ==> verdict == Ignored && Frame() == frame
      ensures !ignore ==> Frame() == Without(frame, tagOff) && verdict == Dispatch(TypeOf(Frame()))
      ensures !ignore ==> vlanTag == Null && cpuTag == tag
      ensures SameOutside(old(mem[..]), mem[..], old(l2), old(l2 + size))
    {
      if ignore {
        return Ignored;
      }
      TypeBehind(frame, tagOff);
      cpuTag, vlanTag := tag, Null;
      RemoveBytes(tagOff);
      return Dispatch(etherType);
    }

    /** The addresses move up over the `off` bytes behind them. */
    method RemoveBytes(off: byte)
      requires Valid() && HEADER + off <= size
      modifies this`l2, this`size, mem
      ensures Valid() && l2 + size == old(l2 + size) && Frame() == Without(old(Frame()), off)
      ensures SameOutside(old(mem[..]), mem[..], old(l2), old(l2 + size))
    {
      CloseGap(mem, l2, l2 + size, off, Frame());
      l2 := l2 + off;
      size := size - off;
    }

    function Padding(isIp: bool): nat
      reads this
    {
      if isIp then Pad(size) else 0
    }

    /** The frame can grow by a tag and its padding: in front of it in the buffer, and in its 16-bit size. */
    predicate HasRoom(isIp: bool)
      reads this
    {
      FitsInFront(l2, size, isIp)
    }

    /**
     The tag insertion of `eth_down`.  A short IP frame grows to the minimum size with what the
     buffer happens to hold behind the moved frame.
     */
    method InsertTag(isIp: bool, vid: word)
      requires Valid() && size >= HEADER && HasRoom(isIp)
      modifies this, mem
      ensures Valid()
      ensures var p, m, end := old(Padding(isIp)), old(mem[..]), old(l2 + size);
        && l2 == old(l2) - VLANTAG_LEN - p && l2 + size == end && pktHead == l2 && vlanTag == At(l2 + ADDRESSES)
        && Frame() == Tagged(old(Frame()), vid) + m[end - p..end]
        && mem[..][..l2] == m[..l2] && mem[..][end..] == m[end..]
    {
      hide Tagged;
      var padding := 0;
      if isIp && size < MIN_IP_FRAME {
        padding := MIN_IP_FRAME - size;
      }
      var end := l2 + size;
      InsertTagBytes(mem, l2, end, padding, vid);
      l2 := l2 - VLANTAG_LEN - padding;
      pktHead := l2;
      size := size + (VLANTAG_LEN + padding);
      vlanTag := At(l2 + ADDRESSES);
      assert l2 + size == end;
    }

    /** `eth_down_handle_ip`: the Ethernet header goes in front of the IP packet at `l3`. */
    method PrependHeader(l3: nat, dst: seq<byte>, src: seq<byte>)
      requires HEADER <= l3 && l3 + size <= mem.Length && size + HEADER < 0x1_0000 && |dst| == |src| == 6
      modifies this, mem
      ensures Valid() && l2 == l3 - HEADER && size == old(size) + HEADER
      ensures Frame() == IpFrame(dst, src, old(mem[..])[l3..l3 + old(size)])
      ensures SameOutside(old(mem[..]), mem[..], l2, l2 + size)
    {
      hide IpFrame;
      ghost var m, packet := mem[..], mem[..][l3..l3 + size];
      WriteHeader(mem, l3 - HEADER, dst, src);
      l2 := l3 - HEADER;
      size := size + HEADER;
      InFront(m, l2, IpFrame(dst, src, []), |packet|);
      HeaderAndPacket(dst, src, packet);
    }

    /**
     `eth_down` up to the transmission.  `arp` is what the ARP table knows of the next hop, `vid`
     the VLAN the request came from, if any.  The frame `u` goes out tagged, or else as it is.
     */
    method Down(
        l2fmt: L2Format, l3fmt: L3Format, l3: nat, arp: Option<seq<byte>>, thisMac: seq<byte>, vid: Option<word>,
        vlanEnabled: bool)
      returns (ok: bool, ghost u: seq<byte>)
      requires l3fmt == IpFormat && arp.Some? ==>
        && HEADER <= l3 && l3 + size <= mem.Length && size + HEADER < 0x1_0000 && |thisMac| == |arp.value| == 6
        && (vid.Some? && vlanEnabled ==> FitsInFront(l3 - HEADER, size + HEADER, true))
      requires l3fmt == NoL3 && l2fmt in {EthFormat, ArpFormat} ==>
        Valid() && size >= HEADER && (vid.Some? && vlanEnabled && TypeOf(Frame()) != TYPE_REALTEK ==> HasRoom(false))
      modifies this, mem
      ensures ok <==> (l3fmt == NoL3 && l2fmt in {EthFormat, ArpFormat}) || (l3fmt == IpFormat && arp.Some?)
      ensures ok && l3fmt == IpFormat ==> u == IpFrame(arp.value, thisMac, old(mem[..])[l3..l3 + old(size)])
      ensures ok && l3fmt != IpFormat ==> u == old(Frame())
      ensures ok ==> Valid() && pktHead == l2 && |u| >= HEADER && SameOutside(old(mem[..]), mem[..], l2, l2 + size)
      ensures ok && l3fmt == IpFormat ==>
        CarriesIp(Frame(), arp.value, thisMac, if vlanEnabled then vid else None, old(mem[..])[l3..l3 + old(size)])
      ensures ok && l3fmt != IpFormat ==>
        CarriesFrame(Frame(), old(Frame()), if vlanEnabled then vid else None)
      ensures ok ==>
        if vid.Some? && vlanEnabled && TypeOf(u) != TYPE_REALTEK then IsTaggedAndPadded(Frame(), u, vid.value, l3fmt)
        else Frame() == u
      ensures !ok ==> mem[..] == old(mem[..]) && l2 == old(l2) && size == old(size)
    {
      hide CarriesIp, CarriesFrame, IsTaggedAndPadded, IpFrame, TypeOf, FitsInFront;
      ok, u := BuildFrame(l2fmt, l3fmt, l3, arp, thisMac);
      if ok {
        TagOutgoing(l3fmt, vid, vlanEnabled);
        if l3fmt == IpFormat {
          ghost var packet := old(mem[..])[l3..l3 + old(size)];
          IpType(arp.value, thisMac, packet);
          IpGoesOut(Frame(), u, arp.value, thisMac, if vlanEnabled then vid else None, packet);
        } else {
          FrameGoesOut(Frame(), u, if vlanEnabled then vid else None, l3fmt);
        }
      }
    }

    method BuildFrame(l2fmt: L2Format, l3fmt: L3Format, l3: nat, arp: Option<seq<byte>>, thisMac: seq<byte>)
      returns (ok: bool, ghost u: seq<byte>)
      requires l3fmt == IpFormat && arp.Some? ==>
        HEADER <= l3 && l3 + size <= mem.Length && size + HEADER < 0x1_0000 && |thisMac| == |arp.value| == 6
      requires l3fmt == NoL3 && l2fmt in {EthFormat, ArpFormat} ==> Valid() && size >= HEADER
      modifies this, mem
      ensures ok <==> (l3fmt == NoL3 && l2fmt in {EthFormat, ArpFormat}) || (l3fmt == IpFormat && arp.Some?)
      ensures ok && l3fmt == IpFormat ==>
        && u == IpFrame(arp.value, thisMac, old(mem[..])[l3..l3 + old(size)])
        && l2 == l3 - HEADER && size == old(size) + HEADER
      ensures ok && l3fmt != IpFormat ==> u == old(Frame()) && l2 == old(l2) && size == old(size)
      ensures ok ==> Valid() && size >= HEADER && u == Frame() && SameOutside(old(mem[..]), mem[..], l2, l2 + size)
      ensures !ok ==> mem[..] == old(mem[..]) && l2 == old(l2) && size == old(size)
    {
      if l3fmt == NoL3 {
        if l2fmt != EthFormat && l2fmt != ArpFormat {
          return false, [];
        }
      } else if l3fmt == IpFormat {
        if arp == None {
          return false, [];
        }
        PrependHeader(l3, arp.value, thisMac);
      } else {
        return false, [];
      }
      return true, Frame();
    }

    method TagOutgoing(l3fmt: L3Format, vid: Option<word>, vlanEnabled: bool)
      requires Valid() && size >= HEADER
      requires vid.Some? && vlanEnabled && TypeOf(Frame()) != TYPE_REALTEK ==> HasRoom(l3fmt == IpFormat)
      modifies this, mem
      ensures Valid() && pktHead == l2 <= old(l2) && l2 + size == old(l2 + size)
      ensures SameOutside(old(mem[..]), mem[..], l2, l2 + size)
      ensures var u := old(Frame());
        if vid.Some? && vlanEnabled && TypeOf(u) != TYPE_REALTEK then IsTaggedAndPadded(Frame(), u, vid.value, l3fmt)
        else Frame() == u
    {
      hide Tagged, TypeOf;
      ghost var u := Frame();
      var etherType := TypeAt(mem, l2 + ADDRESSES);
      TypeInFrame(mem[..], l2, size);
      pktHead := l2;
      assert Frame() == mem[..][l2..l2 + size] == u;
      if vid.Some? && vlanEnabled && etherType != TYPE_REALTEK {
        InsertTag(l3fmt == IpFormat, vid.value);
      }
    }
  }

  /** The frame is `u` with a tag for `vid` and, behind it, as much padding as `u` needs. */
  ghost predicate IsTaggedAndPadded(frame: seq<byte>, u: seq<byte>, vid: word, l3fmt: L3Format)
    requires |u| >= HEADER
  {
    Tagged(u, vid) <= frame && |frame| == |Tagged(u, vid)| + PaddingOf(u, l3fmt)
  }

  /**
   Byte by byte: `f` is addressed to `dst`, comes from `src`, carries the tag for `vid` if there is one,
   has the type of IPv4, and then `packet`; with a tag it is at least 64 bytes long.
   */
  ghost predicate CarriesIp(f: seq<byte>, dst: seq<byte>, src: seq<byte>, vid: Option<word>, packet: seq<byte>) {
    var n := |packet|;
    && |f| >= 14 && f[..6] == dst && f[6..12] == src
    && match vid
       case None => WordAt(f, 12) == 0x0800 && |f| == 14 + n && f[14..] == packet
       case Some(id) =>
         && |f| == (if n < 46 then 64 else 18 + n)
         && WordAt(f, 12) == 0x8100 && WordAt(f, 14) == id && WordAt(f, 16) == 0x0800
         && f[18..18 + n] == packet
  }

  /** `f` is the frame `u`, with a tag for `vid` behind the addresses unless there is none or it is a vendor frame. */
  ghost predicate CarriesFrame(f: seq<byte>, u: seq<byte>, vid: Option<word>) {
    match vid
    case None => f == u
    case Some(id) =>
      && |u| >= 14
      && if WordAt(u, 12) == 0x8899 then f == u
         else |f| == |u| + 4 && f[..12] == u[..12] && WordAt(f, 12) == 0x8100 && WordAt(f, 14) == id
              && f[16..] == u[12..]
  }

  lemma TaggedBytes(u: seq<byte>, vid: word)
    requires |u| >= 14
    ensures var t := Tagged(u, vid);
      && |t| == |u| + 4 && t[..12] == u[..12] && WordAt(t, 12) == 0x8100 && WordAt(t, 14) == vid && t[16..] == u[12..]
  {
    var t, tag := Tagged(u, vid), VlanTag(vid);
    assert t[12] == tag[0] && t[13] == tag[1] && t[14] == tag[2] && t[15] == tag[3];
  }

  lemma IpFrameBytes(dst: seq<byte>, src: seq<byte>, packet: seq<byte>)
    requires |dst| == |src| == 6
    ensures var u := IpFrame(dst, src, packet);
      |u| == 14 + |packet| && u[..6] == dst && u[6..12] == src && WordAt(u, 12) == 0x0800 && u[14..] == packet
  {
  }

  lemma IpType(dst: seq<byte>, src: seq<byte>, packet: seq<byte>)
    requires |dst| == |src| == 6
    ensures TypeOf(IpFrame(dst, src, packet)) != TYPE_REALTEK
  {
  }

  lemma IpGoesOut(
      f: seq<byte>, u: seq<byte>, dst: seq<byte>, src: seq<byte>, vid: Option<word>, packet: seq<byte>)
    requires |dst| == |src| == 6 && u == IpFrame(dst, src, packet)
    requires if vid.Some? then IsTaggedAndPadded(f, u, vid.value, IpFormat) else f == u
    ensures CarriesIp(f, dst, src, vid, packet)
  {
    hide IpFrame, Tagged;
    IpFrameBytes(dst, src, packet);
    if vid.Some? {
      TaggedBytes(u, vid.value);
      IpBehindTag(f, Tagged(u, vid.value), u, packet);
    }
  }

  lemma IpBehindTag(f: seq<byte>, t: seq<byte>, u: seq<byte>, packet: seq<byte>)
    requires |u| == 14 + |packet| && |t| == |u| + 4 && t <= f
    requires t[..12] == u[..12] && t[16..] == u[12..] && u[14..] == packet
    ensures f[..6] == u[..6] && f[6..12] == u[6..12] && WordAt(f, 12) == WordAt(t, 12) && WordAt(f, 14) == WordAt(t, 14)
    ensures WordAt(f, 16) == WordAt(u, 12) && f[18..18 + |packet|] == packet
  {
    assert t == f[..|t|];
    assert f[..6] == t[..12][..6] && f[6..12] == t[..12][6..];
    assert u[..6] == u[..12][..6] && u[6..12] == u[..12][6..];
    assert f[16] == t[16..][0] == u[12] && f[17] == t[16..][1] == u[13];
    assert f[18..18 + |packet|] == t[16..][2..] == u[12..][2..] == u[14..];
  }

  lemma FrameGoesOut(f: seq<byte>, u: seq<byte>, vid: Option<word>, l3fmt: L3Format)
    requires |u| >= 14 && l3fmt != IpFormat
    requires if vid.Some? && TypeOf(u) != TYPE_REALTEK then IsTaggedAndPadded(f, u, vid.value, l3fmt) else f == u
    ensures CarriesFrame(f, u, vid)
  {
    hide Tagged;
    if vid.Some? {
      TaggedBytes(u, vid.value);
    }
  }

  /** How many bytes a frame of `n` is short of the minimum for IP. */
  function Pad(n: nat): nat {
    if n < MIN_IP_FRAME then MIN_IP_FRAME - n else 0
  }

  /** Room for a tag, and for padding in the case of IP, in front of a frame of `n` bytes at `start`. */
  predicate FitsInFront(start: nat, n: nat, isIp: bool) {
    var grown := VLANTAG_LEN + if isIp then Pad(n) else 0;
    grown <= start && n + grown < 0x1_0000
  }

  lemma TypeInFrame(m: seq<byte>, at: nat, n: nat)
    requires at + n <= |m| && n >= HEADER
    ensures TypeOf(m[at..at + n]) == Word(m[at + ADDRESSES], m[at + ADDRESSES + 1])
  {
  }

  /** Where the firmware's senders put the IP header: behind tags and NIC information, 20 bytes before L4 at 38. */
  const TAG_SIZE := 4 + 4 + CPU_TAG_SIZE as int
  const FRAME_INFO_SIZE := 8
  const SENDERS_L3 := TAG_SIZE + FRAME_INFO_SIZE + Checksum.L4_OFFSET - 20

  /** This leaves room for tag and padding exactly for packets of 22 bytes and more: an IP header and any L4 header. */
  lemma SendersHaveRoom(size: nat)
    requires size + HEADER + VLANTAG_LEN + MIN_IP_FRAME < 0x1_0000
    ensures FitsInFront(SENDERS_L3 - HEADER, size + HEADER, true) <==> size >= 22
  {
  }

  function PaddingOf(u: seq<byte>, l3fmt: L3Format): nat {
    if l3fmt == IpFormat then Pad(|u|) else 0
  }

  method WriteHeader(mem: array<byte>, at: nat, dst: seq<byte>, src: seq<byte>)
    requires at + HEADER <= mem.Length && |dst| == |src| == 6
    modifies mem
    ensures mem[..] == old(mem[..])[..at] + IpFrame(dst, src, []) + old(mem[..])[at + HEADER..]
  {
    forall i | 0 <= i < 6 {
      mem[at + i] := dst[i];
    }
    forall i | 0 <= i < 6 {
      mem[at + 6 + i] := src[i];
    }
    mem[at + ADDRESSES] := HighByte(TYPE_IP);
    mem[at + ADDRESSES + 1] := LowByte(TYPE_IP);
  }

  lemma InFront<T>(m: seq<T>, at: nat, header: seq<T>, n: nat)
    requires at + |header| + n <= |m|
    ensures (m[..at] + header + m[at + |header|..])[at..at + |header| + n]
      == header + m[at + |header|..at + |header| + n]
  {
    var a, z, h := m[..at], m[at + |header|..], |header|;
    var s := a + header + z;
    assert s[at..] == header + z;
    assert s[at..at + h + n] == s[at..][..h + n];
    assert z[..n] == m[at + h..at + h + n];
  }

  lemma HeaderAndPacket(dst: seq<byte>, src: seq<byte>, packet: seq<byte>)
    requires |dst| == |src| == 6
    ensures IpFrame(dst, src, []) + packet == IpFrame(dst, src, packet)
  {
  }

  function IpFrame(dst: seq<byte>, src: seq<byte>, packet: seq<byte>): (f: seq<byte>)
    requires |dst| == |src| == 6
    ensures |f| == HEADER + |packet|
  {
    dst + src + [HighByte(TYPE_IP), LowByte(TYPE_IP)] + packet
  }

  /** Closing the gap over `n` bytes of the frame `f` leaves the frame without them at its end. */
  lemma Close(m: seq<byte>, l2: nat, end: nat, n: nat, f: seq<byte>)
    requires l2 + HEADER + n <= end <= |m| && f == m[l2..end]
    ensures MovedUp(m, l2, l2 + ADDRESSES, n)[l2 + n..end] == Without(f, n)
  {
    GapClosed(m, l2, ADDRESSES, n, end);
  }

  lemma MovedUpByNothing(m: seq<byte>, from: nat, to: nat)
    requires from <= to <= |m|
    ensures MovedUp(m, from, to, 0) == m
  {
    MovedUpMeans(m, from, to, 0);
  }

  lemma MovedDownByNothing(m: seq<byte>, from: nat, to: nat)
    requires from <= to <= |m|
    ensures MovedDown(m, from, to, 0) == m
  {
    MovedDownMeans(m, from, to, 0);
  }

  // ---------------------------------------------------------------------------
  // Round trip
  // ---------------------------------------------------------------------------

  lemma TagReads(frame: seq<byte>, vid: word, padding: seq<byte>)
    requires |frame| >= HEADER
    ensures var sent := Tagged(frame, vid) + padding;
      && |sent| == |frame| + VLANTAG_LEN + |padding|
      && TypeOf(sent) == TYPE_VLAN && WordAt(sent, HEADER) == vid
  {
    var sent, tag := Tagged(frame, vid) + padding, VlanTag(vid);
    assert sent[ADDRESSES] == tag[0] && sent[ADDRESSES + 1] == tag[1];
    assert sent[HEADER] == tag[2] && sent[HEADER + 1] == tag[3];
  }

  lemma UntaggedAgain(frame: seq<byte>, vid: word, padding: seq<byte>)
    requires |frame| >= HEADER
    ensures Without(Tagged(frame, vid) + padding, VLANTAG_LEN) == frame + padding
  {
    var addr, rest := frame[..ADDRESSES], frame[ADDRESSES..];
    MiddleParts(addr, VlanTag(vid), rest, padding);
    assert frame == addr + rest;
  }

  /** The inserted tag carries 0x8100 and the VLAN id and is what stripping removes. */
  lemma StrippingUndoesTagging(frame: seq<byte>, vid: word, padding: seq<byte>, c: nat)
    requires |frame| >= HEADER
    ensures var sent := Tagged(frame, vid) + padding;
      && TypeOf(sent) == TYPE_VLAN && WordAt(sent, HEADER) == vid
      && IsWhole(sent, c) && Stripped(sent, c) == frame + padding
  {
    TagReads(frame, vid, padding);
    UntaggedAgain(frame, vid, padding);
  }
}
