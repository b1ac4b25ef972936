/**
 The TFTP firmware download of `update.c`: the receive loop of `tftp_transfer`, its
 acknowledgements and its flash writes, whose result it ignores, against the block structure of section 2 and 6 of
 RFC 1350.

 A frame received is written over the front of the buffer, and a failed receive, whose result the
 loop ignores, writes nothing.  The filter reads the buffer, so the bytes an earlier frame or an
 outgoing packet left there count like received ones.
 */
module Tftp {
  import opened Bytes
  import opened Flash

  type Frame = seq<byte>

  /** Offsets of the UDP payload and of the data within a DATA packet. */
  const PAYLOAD := 0x2A
  const DATA := 0x2E

  /** Size of a full block, and the UDP length of a full DATA packet. */
  const BLOCK := 512
  const FULL := 524

  /** Addresses: `mac` filters frames, the built-in ones and the server's go into requests. */
  datatype Station = Station(mac: seq<byte>, builtInMac: seq<byte>, builtInIp: seq<byte>,
                             serverMac: seq<byte>, serverIp: seq<byte>)
  {
    predicate Valid() {
      |mac| == |builtInMac| == |serverMac| == 6 && |builtInIp| == |serverIp| == 4
    }
  }

  // ---------------------------------------------------------------------------
  // Frames
  // ---------------------------------------------------------------------------

  function EthernetHeader(st: Station, destination: seq<byte>): (h: seq<byte>)
    requires st.Valid() && |destination| == 6
    ensures |h| == 14
  {
    destination + st.builtInMac + [0x08, 0x00]
  }

  function Ipv4Header(st: Station, length: word): (h: seq<byte>)
    requires st.Valid()
    ensures |h| == 20
  {
    [0x45, 0x00, HighByte(length), LowByte(length), 0x80, 0x91, 0x00, 0x00, 0x80, 0x11, 0xFF, 0xFF]
    + st.builtInIp + st.serverIp
  }

  function UdpPorts(port: word, length: word): (h: seq<byte>)
    ensures |h| == 8
  {
    [0x23, 0x79, HighByte(port), LowByte(port), HighByte(length), LowByte(length), 0xFF, 0xFF]
  }

  /** Headers of a datagram of `n` bytes for `port` of the server. */
  function UdpHeader(st: Station, port: word, n: nat): (h: Frame)
    requires st.Valid() && n <= 0xFFFF - 28
    ensures |h| == PAYLOAD
  {
    EthernetHeader(st, st.serverMac) + Ipv4Header(st, 28 + n) + UdpPorts(port, 8 + n)
  }

  /** `udp_sent_template`: 0xFF where the sender fills in, and port 69. */
  function Template(st: Station): (h: Frame)
    requires st.Valid()
    ensures |h| == PAYLOAD
  {
    EthernetHeader(st, [0xFF, 0xFF, 0xFF, 0xFF, 0xFF, 0xFF]) + Ipv4Header(st, 0xFFFF) + UdpPorts(0x45, 0xFFFF)
  }

  lemma TemplateFilled(st: Station, n: nat)
    requires st.Valid() && n <= 0xFFFF - 28
    ensures WithWord(WithWord(st.serverMac + Template(st)[6..], 0x10, 28 + n), 0x26, 8 + n) == UdpHeader(st, 0x45, n)
  {
    var e, p, u := EthernetHeader(st, st.serverMac), Ipv4Header(st, 0xFFFF), UdpPorts(0x45, 0xFFFF);
    assert st.serverMac + Template(st)[6..] == e + p + u;
    assert WithWord(p, 2, 28 + n) == Ipv4Header(st, 28 + n);
    assert WithWord(u, 4, 8 + n) == UdpPorts(0x45, 8 + n);
    assert WithWord(e + p + u, 0x10, 28 + n) == e + WithWord(p, 2, 28 + n) + u;
  }

  lemma PortFilled(st: Station, port: word, n: nat)
    requires st.Valid() && n <= 0xFFFF - 28
    ensures WithWord(UdpHeader(st, 0x45, n), 0x24, port) == UdpHeader(st, port, n)
  {
    assert WithWord(UdpPorts(0x45, 8 + n), 2, port) == UdpPorts(port, 8 + n);
  }

  function UdpFrame(st: Station, port: word, payload: seq<byte>): Frame
    requires st.Valid() && |payload| <= 0xFFFF - 28
  {
    UdpHeader(st, port, |payload|) + payload
  }

  /** `final.bin` and `octet` in ASCII. */
  const FILE: seq<byte> := [102, 105, 110, 97, 108, 46, 98, 105, 110]
  const MODE: seq<byte> := [111, 99, 116, 101, 116]

  function ReadRequest(): (r: seq<byte>)
    ensures |r| == 18
  {
    [0x00, 0x01] + FILE + [0x00] + MODE + [0x00]
  }

  function Acknowledgement(block: word): seq<byte> {
    [0x00, 0x04] + WordBytes(block)
  }

  /** Port, opcode and block number put into a header and the bytes behind it. */
  lemma AckFilled(st: Station, port: word, block: word, tail: seq<byte>)
    requires st.Valid() && |tail| >= 4
    ensures WithWord(WithWord(WithWord(UdpHeader(st, 0x45, 4) + tail, 0x24, port), PAYLOAD, 4), PAYLOAD + 2, block)
            == UdpFrame(st, port, Acknowledgement(block)) + tail[4..]
  {
    hide UdpHeader;
    var h := UdpHeader(st, 0x45, 4);
    PortFilled(st, port, 4);
    assert WithWord(h + tail, 0x24, port) == UdpHeader(st, port, 4) + tail;
    assert WithWord(WithWord(tail, 0, 4), 2, block) == Acknowledgement(block) + tail[4..];
  }

  /** The filter of the receive loop: an IPv4 UDP frame for this station and port 0x2379 with opcode 3. */
  predicate IsData(f: Frame, mac: seq<byte>)
    requires |f| >= DATA
  {
    && f[0x0C] == 0x08 && f[0x0D] == 0x00 && f[..6] == mac && f[0x17] == 0x11
    && f[0x24] == 0x23 && f[0x25] == 0x79 && f[0x2B] == 0x03
  }

  function UdpLength(f: Frame): word
    requires |f| >= DATA
  {
    WordAt(f, 0x26)
  }

  /** How many bytes are written: `tmp - 12` in 16 bits. */
  function DataLength(f: Frame): (n: word)
    requires |f| >= DATA
    ensures UdpLength(f) >= 12 ==> n as int == UdpLength(f) as int - 12
  {
    (UdpLength(f) as int - 12) % 0x1_0000
  }

  /** The data announced lies within these bytes. */
  predicate HoldsData(f: Frame) {
    |f| >= DATA && DATA + DataLength(f) <= |f|
  }

  function Payload(f: Frame): (p: seq<byte>)
    requires HoldsData(f)
    ensures |p| == DataLength(f)
  {
    f[DATA..DATA + DataLength(f)]
  }

  /** What answers the DATA packet `f`. */
  function Answer(st: Station, f: Frame): Frame
    requires st.Valid() && |f| >= DATA
  {
    UdpFrame(st, WordAt(f, 0x22), Acknowledgement(WordAt(f, 0x2C)))
  }

  /** The headers carry the addresses, both lengths and the ports. */
  lemma HeaderFields(st: Station, port: word, n: nat)
    requires st.Valid() && n <= 0xFFFF - 28
    ensures var h := UdpHeader(st, port, n);
      && h[..6] == st.serverMac && WordAt(h, 0x0C) == 0x0800 && WordAt(h, 0x10) == 28 + n && h[0x17] == 0x11
      && WordAt(h, 0x22) == 0x2379 && WordAt(h, 0x24) == port && WordAt(h, 0x26) == 8 + n
  {
    var h := UdpHeader(st, port, n);
    var e, p, u := EthernetHeader(st, st.serverMac), Ipv4Header(st, 28 + n), UdpPorts(port, 8 + n);
    assert h[..14] == e && h[14..34] == p && h[34..] == u;
    assert h[..6] == e[..6] == st.serverMac;
    assert h[0x10] == p[2] && h[0x11] == p[3] && h[0x17] == p[9];
  }

  lemma HeaderFirst(h: Frame, payload: seq<byte>)
    requires |h| == PAYLOAD && |payload| == 4
    ensures var a := h + payload;
      && a[..6] == h[..6] && a[0x17] == h[0x17] && WordAt(a, 0x0C) == WordAt(h, 0x0C)
      && WordAt(a, 0x10) == WordAt(h, 0x10) && WordAt(a, 0x22) == WordAt(h, 0x22)
      && WordAt(a, 0x24) == WordAt(h, 0x24) && WordAt(a, 0x26) == WordAt(h, 0x26)
      && WordAt(a, PAYLOAD) == WordAt(payload, 0) && WordAt(a, 0x2C) == WordAt(payload, 2)
  {
  }

  /** The answer goes to the port the block came from and carries its number; its lengths are right. */
  lemma AnswerEchoes(st: Station, f: Frame)
    requires st.Valid() && |f| >= DATA
    ensures var a := Answer(st, f);
      && |a| == DATA && a[..6] == st.serverMac && WordAt(a, 0x0C) == 0x0800 && a[0x17] == 0x11
      && WordAt(a, 0x10) as int == |a| - 14 && WordAt(a, 0x26) as int == |a| - 34
      && WordAt(a, 0x24) == WordAt(f, 0x22) && WordAt(a, 0x22) == 0x2379
      && WordAt(a, PAYLOAD) == 4 && WordAt(a, 0x2C) == WordAt(f, 0x2C)
  {
    HeaderFields(st, WordAt(f, 0x22), 4);
    HeaderFirst(UdpHeader(st, WordAt(f, 0x22), 4), Acknowledgement(WordAt(f, 0x2C)));
  }

  /** Byte by byte, what the station sends: Ethernet, IPv4 and UDP headers, and the payload. */
  lemma SentFields(st: Station, port: word, payload: seq<byte>)
    requires st.Valid() && |payload| <= 0xFFFF - 28
    ensures var f := UdpFrame(st, port, payload);
      && |f| == 42 + |payload|
      && f[..6] == st.serverMac && f[6..12] == st.builtInMac && f[12] == 0x08 && f[13] == 0x00
      && f[14] == 0x45 && f[15] == 0 && WordAt(f, 16) as int == |f| - 14
      && f[18..26] == [0x80, 0x91, 0x00, 0x00, 0x80, 17, 0xFF, 0xFF]
      && f[26..30] == st.builtInIp && f[30..34] == st.serverIp
      && WordAt(f, 34) == 0x2379 && WordAt(f, 36) == port && WordAt(f, 38) as int == |f| - 34
      && f[40] == 0xFF && f[41] == 0xFF && f[42..] == payload
  {
    var f, n := UdpFrame(st, port, payload), |payload|;
    var e, p, u := EthernetHeader(st, st.serverMac), Ipv4Header(st, 28 + n), UdpPorts(port, 8 + n);
    assert f == e + p + u + payload;
    FrameParts(e, p, u, payload);
    assert e[..6] == st.serverMac && e[6..12] == st.builtInMac;
    assert p[12..16] == st.builtInIp && p[16..20] == st.serverIp;
    assert f[18..26] == f[14..34][4..12] == p[4..12];
    assert f[26..30] == f[14..34][12..16] && f[30..34] == f[14..34][16..20];
    assert f[..6] == f[..14][..6] && f[6..12] == f[..14][6..12];
  }

  lemma FrameParts(e: seq<byte>, p: seq<byte>, u: seq<byte>, payload: seq<byte>)
    requires |e| == 14 && |p| == 20 && |u| == 8
    ensures var f := e + p + u + payload;
      && f[..14] == e && f[14..34] == p && f[34..42] == u && f[42..] == payload
      && (forall k :: 0 <= k < 14 ==> f[k] == e[k]) && (forall k :: 0 <= k < 20 ==> f[14 + k] == p[k])
      && (forall k :: 0 <= k < 8 ==> f[34 + k] == u[k])
  {
  }

  /** The read request asks port 69 for the file, in binary. */
  lemma RequestText(st: Station)
    requires st.Valid()
    ensures ReadRequest() == [0, 1] + Ascii("final.bin") + [0] + Ascii("octet") + [0]
    ensures var r := UdpFrame(st, 0x45, ReadRequest());
      WordAt(r, 36) == 69 && r[42..] == ReadRequest()
  {
    assert FILE == Ascii("final.bin") && MODE == Ascii("octet");
    SentFields(st, 0x45, ReadRequest());
  }

  /**
   The filter takes exactly the IPv4 UDP frames for the station's address and for the port that its
   own packets come from, with opcode 3 in the low byte.
   */
  lemma FilterExactlyWhen(st: Station, f: Frame, port: word, payload: seq<byte>)
    requires st.Valid() && |f| >= 46 && |payload| <= 0xFFFF - 28
    ensures var own := UdpFrame(st, port, payload);
      IsData(f, st.mac) <==>
        && f[..6] == st.mac && WordAt(f, 12) == 0x0800 && f[23] == 17
        && WordAt(f, 36) == WordAt(own, 34) && f[43] == 3
  {
    hide UdpFrame;
    SentFields(st, port, payload);
  }

  /** `f` is the DATA packet of section 5 of RFC 1350 that the server sends from `port`: padding may follow it. */
  predicate IsDataPacket(st: Station, f: Frame, port: word, block: word, data: seq<byte>)
    requires st.Valid()
  {
    && |data| <= 512 && |f| >= 46 + |data|
    && f[..6] == st.mac && WordAt(f, 12) == 0x0800 && f[23] == 17
    && WordAt(f, 34) == port && WordAt(f, 36) == WordAt(UdpFrame(st, 69, ReadRequest()), 34)
    && WordAt(f, 38) as int == 8 + 4 + |data|
    && WordAt(f, 42) == 3 && WordAt(f, 44) == block && f[46..46 + |data|] == data
  }

  /** The packet as a server builds it: addressed to the station, in reply to its read request. */
  function ServerFrame(st: Station, port: word, block: word, data: seq<byte>): Frame
    requires st.Valid() && |data| <= 512
  {
    var n := |data|;
    st.mac + st.serverMac + [0x08, 0x00]
    + ([0x45, 0x00] + WordBytes(32 + n) + [0, 0, 0, 0, 64, 17, 0, 0] + st.serverIp + st.builtInIp)
    + (WordBytes(port) + [0x23, 0x79] + WordBytes(12 + n) + [0, 0])
    + ([0, 3] + WordBytes(block) + data)
  }

  lemma ServerFrameIsPacket(st: Station, port: word, block: word, data: seq<byte>)
    requires st.Valid() && |data| <= 512
    ensures IsDataPacket(st, ServerFrame(st, port, block, data), port, block, data)
  {
    hide UdpFrame, ReadRequest;
    var n, f := |data|, ServerFrame(st, port, block, data);
    var e := st.mac + st.serverMac + [0x08, 0x00];
    var p := [0x45, 0x00] + WordBytes(32 + n) + [0, 0, 0, 0, 64, 17, 0, 0] + st.serverIp + st.builtInIp;
    var u := WordBytes(port) + [0x23, 0x79] + WordBytes(12 + n) + [0, 0];
    var payload := [0, 3] + WordBytes(block) + data;
    FrameParts(e, p, u, payload);
    SentFields(st, 69, ReadRequest());
    assert f == e + p + u + payload;
    assert f[..6] == f[..14][..6] == st.mac;
    assert forall k :: 0 <= k < |payload| ==> f[42 + k] == f[42..][k];
    assert f[46..46 + n] == payload[4..] == data;
  }

  /** Such a packet is taken with its data, ends the transfer iff that is short, and is acknowledged to its port. */
  lemma DataPacketTaken(st: Station, f: Frame, port: word, block: word, data: seq<byte>)
    requires st.Valid() && IsDataPacket(st, f, port, block, data)
    ensures Sound(f, st.mac) && IsBlock(f, st.mac) && Payload(f) == data && (IsLast(f) <==> |data| < 512)
    ensures Answer(st, f) == UdpFrame(st, port, [0, 4] + WordBytes(block))
  {
    hide UdpFrame, IsData, ReadRequest;
    FilterExactlyWhen(st, f, 69, ReadRequest());
    assert WordAt(f, 42) == 3 ==> f[43] == 3;
    assert [0x00, 0x04] + WordBytes(block) == Acknowledgement(block);
  }

  // ---------------------------------------------------------------------------
  // What a receive stream means
  // ---------------------------------------------------------------------------

  /** One receive, and what lies in memory behind the buffer then: data longer than the buffer is read on into it. */
  datatype Arrival = Arrival(frame: Frame, behind: seq<byte>)

  predicate AllWithin(rx: seq<Arrival>, size: nat) {
    forall i :: 0 <= i < |rx| ==> |rx[i].frame| <= size && |rx[i].behind| == 0x1_0000
  }

  function Frames(rx: seq<Arrival>): (f: seq<Frame>)
    ensures |f| == |rx|
  {
    if rx == [] then [] else [rx[0].frame] + Frames(rx[1..])
  }

  /** The buffer with a frame received: the bytes behind it stay. */
  function Received(mem: seq<byte>, f: Frame): (m: seq<byte>)
    requires |f| <= |mem|
    ensures |m| == |mem|
  {
    f + mem[|f|..]
  }

  /** The buffer after a pass: an answer is built in place. */
  function Passed(st: Station, m: seq<byte>): (r: seq<byte>)
    requires st.Valid() && |m| >= DATA
    ensures |r| == |m|
  {
    if IsData(m, st.mac) then Answer(st, m) + m[DATA..] else m
  }

  /** What the filter and the writes see: the buffer after each receive, and the memory behind it. */
  function Buffers(st: Station, mem: seq<byte>, rx: seq<Arrival>): (b: seq<Frame>)
    requires st.Valid() && |mem| >= DATA && AllWithin(rx, |mem|)
    ensures |b| == |rx| && forall i :: 0 <= i < |b| ==> |b[i]| == |mem| + 0x1_0000
    decreases rx
  {
    if rx == [] then []
    else
      var m := Received(mem, rx[0].frame);
      [m + rx[0].behind] + Buffers(st, Passed(st, m), rx[1..])
  }

  /** The memory behind the buffer plays no part in the filter and in the answer. */
  lemma BehindIsNotRead(st: Station, m: seq<byte>, behind: seq<byte>)
    requires st.Valid() && |m| >= DATA && |behind| == 0x1_0000
    ensures IsData(m + behind, st.mac) == IsData(m, st.mac) == IsBlock(m + behind, st.mac)
    ensures UdpLength(m + behind) == UdpLength(m) && Answer(st, m + behind) == Answer(st, m)
  {
    hide UdpFrame;
    assert (m + behind)[..6] == m[..6];
  }

  lemma PayloadRead(m: seq<byte>, behind: seq<byte>)
    requires |m| >= DATA && |behind| == 0x1_0000
    ensures HoldsData(m + behind)
    ensures Payload(m + behind) == (m + behind)[DATA..DATA + (UdpLength(m) as int - 12) % 0x1_0000]
  {
    assert UdpLength(m + behind) == UdpLength(m);
  }

  /** The buffer with the read request in it. */
  function Requested(st: Station, mem: seq<byte>): (m: seq<byte>)
    requires st.Valid() && |mem| >= DATA + BLOCK
    ensures |m| == |mem|
  {
    var request := UdpFrame(st, 0x45, ReadRequest());
    request + mem[|request|..]
  }

  predicate IsBlock(f: Frame, mac: seq<byte>) {
    |f| >= DATA && IsData(f, mac) && HoldsData(f)
  }

  predicate IsLast(f: Frame)
    requires |f| >= DATA
  {
    UdpLength(f) < FULL
  }

  predicate AllFit(blocks: seq<Frame>) {
    forall i :: 0 <= i < |blocks| ==> HoldsData(blocks[i])
  }

  /** The DATA packets of `rx` up to and including the first short one. */
  function Blocks(rx: seq<Frame>, mac: seq<byte>): (b: seq<Frame>)
    ensures AllFit(b)
  {
    if rx == [] then []
    else if !IsBlock(rx[0], mac) then Blocks(rx[1..], mac)
    else if IsLast(rx[0]) then [rx[0]]
    else [rx[0]] + Blocks(rx[1..], mac)
  }

  function Payloads(blocks: seq<Frame>): (p: seq<seq<byte>>)
    requires AllFit(blocks)
    ensures |p| == |blocks| && forall i :: 0 <= i < |p| ==> p[i] == Payload(blocks[i])
  {
    if blocks == [] then [] else [Payload(blocks[0])] + Payloads(blocks[1..])
  }

  /** The data of a sequence of blocks, one after the other. */
  function Image(blocks: seq<Frame>): seq<byte>
    requires AllFit(blocks)
  {
    Join(Payloads(blocks))
  }

  function Answers(st: Station, blocks: seq<Frame>): (a: seq<Frame>)
    requires st.Valid() && AllFit(blocks)
    ensures |a| == |blocks|
  {
    if blocks == [] then [] else [Answer(st, blocks[0])] + Answers(st, blocks[1..])
  }

  lemma ImageAppends(a: seq<Frame>, b: seq<Frame>)
    requires AllFit(a) && AllFit(b)
    ensures AllFit(a + b) && Image(a + b) == Image(a) + Image(b)
  {
    assert Payloads(a + b) == Payloads(a) + Payloads(b);
    JoinAppends(Payloads(a), Payloads(b));
  }

  lemma ImageOfOne(f: Frame)
    requires HoldsData(f)
    ensures Image([f]) == Payload(f)
  {
    assert Payloads([f]) == [Payload(f)];
    JoinAppends([Payload(f)], []);
  }

  lemma {:induction false} AnswersExtend(st: Station, blocks: seq<Frame>, f: Frame)
    requires st.Valid() && AllFit(blocks) && HoldsData(f)
    ensures Answers(st, blocks + [f]) == Answers(st, blocks) + [Answer(st, f)]
  {
    var all := blocks + [f];
    if blocks == [] {
      assert all[1..] == [];
    } else {
      assert all[1..] == blocks[1..] + [f];
      AnswersExtend(st, blocks[1..], f);
    }
  }

  /** What ends the transfer. */
  predicate Ends(f: Frame, mac: seq<byte>) {
    IsBlock(f, mac) && IsLast(f)
  }

  predicate NoneEnds(rx: seq<Frame>, mac: seq<byte>, n: nat)
    requires n <= |rx|
  {
    forall i :: 0 <= i < n ==> !Ends(rx[i], mac)
  }

  /** The blocks still to come after `n` frames. */
  function Left(rx: seq<Frame>, mac: seq<byte>, n: nat, done: bool): (b: seq<Frame>)
    requires n <= |rx|
    ensures AllFit(b)
  {
    if done then [] else Blocks(rx[n..], mac)
  }

  function With(blocks: seq<Frame>, f: Frame, mac: seq<byte>): seq<Frame> {
    if IsBlock(f, mac) then blocks + [f] else blocks
  }

  lemma NothingYet(st: Station, before: seq<byte>, protect: seq<Region>)
    requires st.Valid()
    ensures Blocks([], st.mac) == [] && Image([]) == [] && Answers(st, []) == []
    ensures Loaded(before, protect, 0, Payloads([])) == before
  {
  }

  /** Writing one more block behind an image extends the image. */
  lemma ImageGrows(before: seq<byte>, protect: seq<Region>, blocks: seq<Frame>, f: Frame)
    requires AllFit(blocks) && HoldsData(f)
    ensures AllFit(blocks + [f])
    ensures Loaded(before, protect, 0, Payloads(blocks + [f]))
      == Stored(Loaded(before, protect, 0, Payloads(blocks)), protect, Sum32(0, |Image(blocks)|), Payload(f))
    ensures Sum32(0, |Image(blocks + [f])|) == Sum32(Sum32(0, |Image(blocks)|), |Payload(f)|)
  {
    assert Payloads(blocks + [f]) == Payloads(blocks) + [Payload(f)];
    LoadedExtends(before, protect, 0, Payloads(blocks), Payload(f));
  }

  lemma FirstBlock(rx: seq<Frame>, mac: seq<byte>)
    requires rx != []
    ensures Blocks(rx, mac) == (if IsBlock(rx[0], mac) then [rx[0]] else [])
      + (if Ends(rx[0], mac) then [] else Blocks(rx[1..], mac))
  {
    hide IsData, HoldsData, UdpLength;
    assert Blocks(rx[1..], mac) == [] + Blocks(rx[1..], mac);
  }

  /** One frame moves from what is left to what has been taken. */
  lemma NextBlock(rx: seq<Frame>, mac: seq<byte>, n: nat, blocks: seq<Frame>)
    requires n < |rx| && AllFit(blocks) && blocks + Left(rx, mac, n, false) == Blocks(rx, mac)
    ensures With(blocks, rx[n], mac) + Left(rx, mac, n + 1, Ends(rx[n], mac)) == Blocks(rx, mac)
  {
    hide IsBlock, Ends, Blocks;
    FirstBlock(rx[n..], mac);
    var f, rest := rx[n], Left(rx, mac, n + 1, Ends(rx[n], mac));
    assert rx[n..][0] == f && rx[n..][1..] == rx[n + 1..];
    Regrouped(blocks, if IsBlock(f, mac) then [f] else [], rest);
  }

  lemma Regrouped<T>(a: seq<T>, b: seq<T>, c: seq<T>)
    ensures a + (b + c) == (a + b) + c
    ensures b == [] ==> a + b == a
  {
  }

  /** The next frame received gives the next buffer seen. */
  lemma NextBuffer(st: Station, mem: seq<byte>, rx: seq<Arrival>, n: nat, seen: seq<Frame>)
    requires st.Valid() && |mem| >= DATA && AllWithin(rx, |mem|) && n < |rx| == |seen|
    requires seen[n..] == Buffers(st, mem, rx[n..])
    ensures var m := Received(mem, rx[n].frame);
      seen[n] == m + rx[n].behind && seen[n + 1..] == Buffers(st, Passed(st, m), rx[n + 1..])
  {
    assert rx[n..][1..] == rx[n + 1..];
    assert seen[n] == seen[n..][0] && seen[n + 1..] == seen[n..][1..];
  }

  // ---------------------------------------------------------------------------
  // Frames that speak for themselves
  // ---------------------------------------------------------------------------

  /** A failed receive, or a frame with all headers that holds the data it announces. */
  predicate Sound(f: Frame, mac: seq<byte>) {
    f == [] || (|f| >= DATA && (IsData(f, mac) ==> HoldsData(f)))
  }

  predicate AllSound(rx: seq<Arrival>, mac: seq<byte>) {
    forall i :: 0 <= i < |rx| ==> Sound(rx[i].frame, mac)
  }

  /** Taking `m` or `f` comes to the same. */
  predicate Alike(st: Station, m: Frame, f: Frame)
    requires st.Valid()
  {
    if IsBlock(f, st.mac) then
      IsBlock(m, st.mac) && IsLast(m) == IsLast(f) && Payload(m) == Payload(f) && Answer(st, m) == Answer(st, f)
    else
      !IsBlock(m, st.mac)
  }

  lemma FrontFiltered(f: Frame, s: seq<byte>, mac: seq<byte>)
    requires |mac| == 6 && DATA <= |f| <= |s| && s[..|f|] == f
    ensures IsData(s, mac) == IsData(f, mac)
  {
    assert forall k :: 0 <= k < |f| ==> s[k] == s[..|f|][k] == f[k];
    assert s[..6] == f[..6];
  }

  lemma FrontRead(f: Frame, s: seq<byte>)
    requires DATA <= |f| <= |s| && s[..|f|] == f
    ensures UdpLength(s) == UdpLength(f) && WordAt(s, 0x22) == WordAt(f, 0x22) && WordAt(s, 0x2C) == WordAt(f, 0x2C)
    ensures HoldsData(f) ==> HoldsData(s) && Payload(s) == Payload(f)
  {
    assert forall k :: 0 <= k < |f| ==> s[k] == s[..|f|][k] == f[k];
  }

  /** Of a sound frame nothing is read that an earlier one left, or that lies behind. */
  lemma ReceivedSpeaks(st: Station, mem: seq<byte>, f: Frame, behind: seq<byte>)
    requires st.Valid() && DATA <= |f| <= |mem| && Sound(f, st.mac)
    ensures var m := Received(mem, f);
      Alike(st, m + behind, f) && IsData(m, st.mac) == IsData(f, st.mac)
  {
    hide UdpFrame, IsData, Payload, UdpLength, HoldsData;
    var m := Received(mem, f);
    var s := m + behind;
    assert m[..|f|] == f && s[..|f|] == f;
    FrontFiltered(f, m, st.mac);
    FrontFiltered(f, s, st.mac);
    FrontRead(f, s);
  }

  /** Neither the request nor an answer in the buffer passes the filter. */
  lemma OwnPacketsRefused(st: Station, m: seq<byte>)
    requires st.Valid() && |m| >= DATA + BLOCK
    ensures !IsData(Requested(st, m), st.mac) && !IsData(Passed(st, m), st.mac)
  {
    assert UdpFrame(st, 0x45, ReadRequest())[0x2B] == ReadRequest()[1];
    if IsData(m, st.mac) {
      assert Answer(st, m)[0x2B] == Acknowledgement(WordAt(m, 0x2C))[1];
    }
  }

  /** What two streams of blocks write and send is the same. */
  predicate SameEffect(st: Station, a: seq<Frame>, b: seq<Frame>)
    requires st.Valid() && AllFit(a) && AllFit(b)
  {
    Payloads(a) == Payloads(b) && Answers(st, a) == Answers(st, b)
  }

  lemma SameEffectExtends(st: Station, m: Frame, a: seq<Frame>, f: Frame, b: seq<Frame>)
    requires st.Valid() && AllFit(a) && AllFit(b) && SameEffect(st, a, b)
    requires Alike(st, m, f) && IsBlock(f, st.mac)
    ensures SameEffect(st, [m] + a, [f] + b)
  {
    hide Payload, Answer, IsBlock;
    assert ([m] + a)[1..] == a && ([f] + b)[1..] == b;
  }

  lemma AlikeFirst(st: Station, m: Frame, seen: seq<Frame>, rx: seq<Frame>)
    requires st.Valid() && rx != [] && Alike(st, m, rx[0])
    requires SameEffect(st, Blocks(seen, st.mac), Blocks(rx[1..], st.mac))
    ensures SameEffect(st, Blocks([m] + seen, st.mac), Blocks(rx, st.mac))
  {
    hide IsData, Answer, Payloads, Answers;
    assert ([m] + seen)[1..] == seen;
    if IsBlock(rx[0], st.mac) {
      if IsLast(rx[0]) {
        SameEffectExtends(st, m, [], rx[0], []);
        assert [m] + [] == [m] && [rx[0]] + [] == [rx[0]];
      } else {
        SameEffectExtends(st, m, Blocks(seen, st.mac), rx[0], Blocks(rx[1..], st.mac));
      }
    }
  }

  /** With sound frames the blocks taken are those among the frames themselves. */
  lemma {:induction false} FramesSpeak(st: Station, mem: seq<byte>, rx: seq<Arrival>)
    requires st.Valid() && |mem| >= DATA + BLOCK && AllWithin(rx, |mem|) && AllSound(rx, st.mac) && !IsData(mem, st.mac)
    ensures SameEffect(st, Blocks(Buffers(st, mem, rx), st.mac), Blocks(Frames(rx), st.mac))
    ensures forall i :: 0 <= i < |rx| ==> Ends(Buffers(st, mem, rx)[i], st.mac) == Ends(rx[i].frame, st.mac)
    decreases rx
  {
    hide IsData, SameEffect, Blocks, Received, Passed, HoldsData, UdpLength, Payload, Answer;
    if rx == [] {
      EmptyStream(st);
    } else {
      var m := Received(mem, rx[0].frame);
      FirstReceived(st, mem, rx[0]);
      FramesSpeak(st, Passed(st, m), rx[1..]);
      assert Frames(rx)[1..] == Frames(rx[1..]);
      AlikeFirst(st, m + rx[0].behind, Buffers(st, Passed(st, m), rx[1..]), Frames(rx));
    }
  }

  lemma EmptyStream(st: Station)
    requires st.Valid()
    ensures SameEffect(st, Blocks([], st.mac), Blocks([], st.mac))
  {
  }

  lemma FirstReceived(st: Station, mem: seq<byte>, a: Arrival)
    requires st.Valid() && |a.frame| <= |mem| && DATA + BLOCK <= |mem| && |a.behind| == 0x1_0000
    requires Sound(a.frame, st.mac) && !IsData(mem, st.mac)
    ensures var m := Received(mem, a.frame);
      Alike(st, m + a.behind, a.frame) && !IsData(Passed(st, m), st.mac)
  {
    hide Answer, Payload, IsData;
    var m := Received(mem, a.frame);
    if a.frame == [] {
      assert m == mem;
      BehindIsNotRead(st, m, a.behind);
    } else {
      ReceivedSpeaks(st, mem, a.frame, a.behind);
    }
    OwnPacketsRefused(st, m);
  }

  // ---------------------------------------------------------------------------
  // The server's side
  // ---------------------------------------------------------------------------

  /** How a file is cut into blocks: full ones and a last short, possibly empty, one. */
  function Chunks(file: seq<byte>): (c: seq<seq<byte>>)
    ensures |c| > 0
  {
    if |file| < BLOCK then [file] else [file[..BLOCK]] + Chunks(file[BLOCK..])
  }

  /** Every part of `chunks` arrives in order, once or more often. */
  predicate Repeats(parts: seq<seq<byte>>, chunks: seq<seq<byte>>) {
    if parts == [] then chunks == []
    else chunks != [] && parts[0] == chunks[0] && (Repeats(parts[1..], chunks[1..]) || Repeats(parts[1..], chunks))
  }

  predicate FullButLast(parts: seq<seq<byte>>) {
    forall i :: 0 <= i < |parts| - 1 ==> |parts[i]| >= BLOCK
  }

  /** Every block taken but the last is full. */
  lemma {:induction false} BlocksAreFull(rx: seq<Frame>, mac: seq<byte>)
    ensures FullButLast(Payloads(Blocks(rx, mac)))
  {
    if rx != [] {
      BlocksAreFull(rx[1..], mac);
      if IsBlock(rx[0], mac) && !IsLast(rx[0]) {
        var r, p := Payloads(Blocks(rx[1..], mac)), Payloads(Blocks(rx, mac));
        assert p == [Payload(rx[0])] + r by {
          assert Blocks(rx, mac)[1..] == Blocks(rx[1..], mac);
        }
        assert forall i :: 1 <= i < |p| ==> p[i] == r[i - 1];
      }
    }
  }

  lemma {:induction false} ChunksJoin(file: seq<byte>)
    ensures Join(Chunks(file)) == file
  {
    if |file| < BLOCK {
      assert Join([file]) == file + Join([]);
    } else {
      ChunksJoin(file[BLOCK..]);
      assert file == file[..BLOCK] + file[BLOCK..];
    }
  }

  /**
   Repeating a full block only adds to what is written, so the bytes come out right exactly
   when no block is repeated.
   */
  lemma {:induction false} RepeatsGrow(parts: seq<seq<byte>>, chunks: seq<seq<byte>>, file: seq<byte>)
    requires chunks == Chunks(file) && Repeats(parts, chunks) && FullButLast(parts)
    ensures |parts| >= |chunks| && |Join(parts)| >= |file|
    ensures |parts| > |chunks| ==> |Join(parts)| > |file|
    ensures |parts| == |chunks| ==> parts == chunks
  {
    var rest := parts[1..];
    if Repeats(rest, chunks[1..]) {
      if |file| < BLOCK {
        assert rest == [];
        assert Join(parts) == file;
      } else {
        RepeatsGrow(rest, chunks[1..], file[BLOCK..]);
      }
    } else {
      RepeatsGrow(rest, chunks, file);
    }
  }

  lemma ExactWithoutRepeats(rx: seq<Frame>, mac: seq<byte>, file: seq<byte>)
    requires Repeats(Payloads(Blocks(rx, mac)), Chunks(file))
    ensures Image(Blocks(rx, mac)) == file <==> |Blocks(rx, mac)| == |Chunks(file)|
    ensures Payloads(Blocks(rx, mac)) == Chunks(file) <==> |Blocks(rx, mac)| == |Chunks(file)|
  {
    hide Blocks, Chunks, Repeats, Join, FullButLast;
    var parts := Payloads(Blocks(rx, mac));
    BlocksAreFull(rx, mac);
    ChunksJoin(file);
    RepeatsGrow(parts, Chunks(file), file);
  }

  /**
   When the blocks of `file` arrive in order, whatever is mixed in and whatever the buffer held,
   what is written is the file exactly when none of them arrives twice before the last: the loop
   never looks at the block number.
   */
  lemma DownloadExactWithoutRepeats(st: Station, mem: seq<byte>, rx: seq<Arrival>, file: seq<byte>)
    requires st.Valid() && |mem| >= DATA + BLOCK && AllWithin(rx, |mem|) && AllSound(rx, st.mac)
    requires Repeats(Payloads(Blocks(Frames(rx), st.mac)), Chunks(file))
    ensures var seen, n := Buffers(st, Requested(st, mem), rx), |Blocks(Frames(rx), st.mac)|;
      && (Image(Blocks(seen, st.mac)) == file <==> n == |Chunks(file)|)
      && (Payloads(Blocks(seen, st.mac)) == Chunks(file) <==> n == |Chunks(file)|)
  {
    hide IsData, Blocks, Repeats, Chunks, Buffers, Requested;
    OwnPacketsRefused(st, mem);
    FramesSpeak(st, Requested(st, mem), rx);
    ExactWithoutRepeats(Frames(rx), st.mac, file);
  }

  // ---------------------------------------------------------------------------
  // What ends up in the flash
  // ---------------------------------------------------------------------------

  predicate AreServed(st: Station, rx: seq<Frame>, port: word, first: nat, parts: seq<seq<byte>>)
    requires st.Valid()
  {
    && |rx| == |parts|
    && forall i :: 0 <= i < |rx| ==> IsDataPacket(st, rx[i], port, (first + i) % 0x1_0000, parts[i])
  }

  function NumberedAck(st: Station, port: word, n: nat): Frame
    requires st.Valid()
  {
    UdpFrame(st, port, [0, 4] + WordBytes(n % 0x1_0000))
  }

  /** The acknowledgements of `count` blocks from `first` on. */
  function NumberedAcks(st: Station, port: word, first: nat, count: nat): (a: seq<Frame>)
    requires st.Valid()
    ensures |a| == count
    decreases count
  {
    if count == 0 then [] else [NumberedAck(st, port, first)] + NumberedAcks(st, port, first + 1, count - 1)
  }

  /** Of these frames the last one ends the transfer, and no other. */
  predicate LastEnds(rx: seq<Frame>, mac: seq<byte>)
    decreases |rx|
  {
    rx != [] && Ends(rx[0], mac) == (|rx| == 1) && (|rx| > 1 ==> LastEnds(rx[1..], mac))
  }

  lemma {:induction false} LastEndsMeans(rx: seq<Frame>, mac: seq<byte>, i: nat)
    requires LastEnds(rx, mac) && i < |rx|
    ensures Ends(rx[i], mac) == (i == |rx| - 1)
  {
    hide Ends;
    if i > 0 {
      LastEndsMeans(rx[1..], mac, i - 1);
    }
  }

  /** All are taken with these data and acknowledged by their numbers. */
  predicate AreTaken(st: Station, rx: seq<Frame>, port: word, first: nat, parts: seq<seq<byte>>)
    requires st.Valid()
  {
    && Blocks(rx, st.mac) == rx && AllFit(rx) && Payloads(rx) == parts
    && Answers(st, rx) == NumberedAcks(st, port, first, |rx|)
  }

  lemma OneTaken(st: Station, rx: seq<Frame>, port: word, first: nat, parts: seq<seq<byte>>)
    requires st.Valid() && rx != [] && parts != [] && IsDataPacket(st, rx[0], port, first % 0x1_0000, parts[0])
    requires |rx| == |parts| && (|parts[0]| < BLOCK <==> |rx| == 1)
    requires |rx| > 1 ==> LastEnds(rx[1..], st.mac) && AreTaken(st, rx[1..], port, first + 1, parts[1..])
    ensures LastEnds(rx, st.mac) && AreTaken(st, rx, port, first, parts)
  {
    hide IsDataPacket, UdpFrame, IsData, HoldsData, Payload, Answer, UdpLength, Blocks;
    hide IsBlock, IsLast, Payloads, Answers, NumberedAck, NumberedAcks, AllFit;
    DataPacketTaken(st, rx[0], port, first % 0x1_0000, parts[0]);
    SameAck(st, port, first);
    BlocksGoOn(rx, st.mac, parts);
    AcksGoOn(st, rx, port, first);
  }

  lemma SameAck(st: Station, port: word, n: nat)
    requires st.Valid()
    ensures NumberedAck(st, port, n) == UdpFrame(st, port, [0, 4] + WordBytes(n % 0x1_0000))
  {
  }

  lemma AcksGoOn(st: Station, rx: seq<Frame>, port: word, first: nat)
    requires st.Valid() && rx != [] && AllFit(rx) && AllFit(rx[1..])
    requires Answer(st, rx[0]) == NumberedAck(st, port, first)
    requires |rx| > 1 ==> Answers(st, rx[1..]) == NumberedAcks(st, port, first + 1, |rx| - 1)
    ensures Answers(st, rx) == NumberedAcks(st, port, first, |rx|)
  {
    hide Answer, NumberedAck, HoldsData;
    if |rx| == 1 {
      assert rx[1..] == [];
    }
  }

  lemma BlocksGoOn(rx: seq<Frame>, mac: seq<byte>, parts: seq<seq<byte>>)
    requires rx != [] && parts != [] && IsBlock(rx[0], mac) && Payload(rx[0]) == parts[0]
    requires Ends(rx[0], mac) == (|rx| == 1) && |rx| == |parts|
    requires |rx| > 1 ==>
      Blocks(rx[1..], mac) == rx[1..] && AllFit(rx[1..]) && Payloads(rx[1..]) == parts[1..]
    ensures Blocks(rx, mac) == rx && AllFit(rx) && AllFit(rx[1..]) && Payloads(rx) == parts
  {
    hide IsData, HoldsData, Payload, Ends, Blocks, UdpLength;
    FirstBlock(rx, mac);
    FirstAndRest(rx);
    FirstAndRest(parts);
    if |rx| > 1 {
      assert forall i :: 0 < i < |rx| ==> rx[i] == rx[1..][i - 1];
    }
  }

  lemma FirstAndRest<T>(s: seq<T>)
    requires s != []
    ensures s == [s[0]] + s[1..] && [s[0]] + [] == [s[0]] && (|s| == 1 ==> s[1..] == [])
  {
  }

  /** The server's packets for a file, numbered from `first` on, are taken in order; the last one ends the transfer. */
  lemma {:induction false} ServedBlocks(st: Station, rx: seq<Frame>, port: word, first: nat, file: seq<byte>)
    requires st.Valid() && AreServed(st, rx, port, first, Chunks(file))
    ensures LastEnds(rx, st.mac) && AreTaken(st, rx, port, first, Chunks(file))
    decreases |file|
  {
    hide IsDataPacket, AreTaken, LastEnds;
    var chunks := Chunks(file);
    if |file| >= BLOCK {
      assert chunks[1..] == Chunks(file[BLOCK..]);
      assert forall i :: 0 <= i < |rx| - 1 ==> rx[1..][i] == rx[i + 1] && first + 1 + i == first + (i + 1);
      ServedBlocks(st, rx[1..], port, first + 1, file[BLOCK..]);
    }
    OneTaken(st, rx, port, first, chunks);
  }

  /**
   A download as the server means it: block after block of the file, each once.  Everything is written
   that the flash accepts, every block is acknowledged by its number, and the last one ends it.
   */
  lemma DownloadAsServed(st: Station, mem: seq<byte>, rx: seq<Arrival>, port: word, file: seq<byte>)
    requires st.Valid() && |mem| >= DATA + BLOCK && AllWithin(rx, |mem|)
    requires AreServed(st, Frames(rx), port, 1, Chunks(file))
    ensures var seen := Buffers(st, Requested(st, mem), rx);
      && Payloads(Blocks(seen, st.mac)) == Chunks(file)
      && Ends(seen[|rx| - 1], st.mac) && NoneEnds(seen, st.mac, |rx| - 1)
      && Answers(st, Blocks(seen, st.mac)) == NumberedAcks(st, port, 1, |rx|)
  {
    hide IsDataPacket, UdpFrame, IsData, Buffers, Requested, Blocks, Chunks, Ends, NumberedAcks;
    FramesAt(rx);
    forall i | 0 <= i < |rx| ensures Sound(rx[i].frame, st.mac) {
      DataPacketTaken(st, Frames(rx)[i], port, (1 + i) % 0x1_0000, Chunks(file)[i]);
    }
    OwnPacketsRefused(st, mem);
    FramesSpeak(st, Requested(st, mem), rx);
    ServedBlocks(st, Frames(rx), port, 1, file);
    forall i | 0 <= i < |rx| ensures Ends(Frames(rx)[i], st.mac) == (i == |rx| - 1) {
      LastEndsMeans(Frames(rx), st.mac, i);
    }
  }

  lemma {:induction false} FramesAt(rx: seq<Arrival>)
    ensures forall i :: 0 <= i < |rx| ==> Frames(rx)[i] == rx[i].frame
  {
    if rx != [] {
      FramesAt(rx[1..]);
    }
  }

  function ServerFrames(st: Station, port: word, first: nat, parts: seq<seq<byte>>): (f: seq<Frame>)
    requires st.Valid() && forall i :: 0 <= i < |parts| ==> |parts[i]| <= 512
    ensures |f| == |parts|
  {
    seq(|parts|, i requires 0 <= i < |parts| => ServerFrame(st, port, (first + i) % 0x1_0000, parts[i]))
  }

  /** The packets a server builds from a file are such a stream. */
  lemma FileIsServed(st: Station, port: word, file: seq<byte>)
    requires st.Valid()
    ensures (forall i :: 0 <= i < |Chunks(file)| ==> |Chunks(file)[i]| <= 512)
    ensures AreServed(st, ServerFrames(st, port, 1, Chunks(file)), port, 1, Chunks(file))
  {
    hide IsDataPacket, ServerFrame;
    ChunksAreSmall(file);
    var chunks := Chunks(file);
    var rx := ServerFrames(st, port, 1, chunks);
    forall i | 0 <= i < |rx| ensures IsDataPacket(st, rx[i], port, (1 + i) % 0x1_0000, chunks[i]) {
      ServerFrameIsPacket(st, port, (1 + i) % 0x1_0000, chunks[i]);
    }
  }

  lemma {:induction false} ChunksAreSmall(file: seq<byte>)
    ensures forall i :: 0 <= i < |Chunks(file)| ==> |Chunks(file)[i]| <= 512
  {
    if |file| >= BLOCK {
      ChunksAreSmall(file[BLOCK..]);
    }
  }

  predicate BlockAligned(protect: seq<Region>) {
    forall i :: 0 <= i < |protect| ==> protect[i].lo % BLOCK == 0 && protect[i].hi % BLOCK == 0
  }

  /** The end of the block of a file of `n` bytes that holds byte `j`. */
  function BlockEnd(n: nat, j: nat): nat {
    var end := (j / BLOCK + 1) * BLOCK;
    if end < n then end else n
  }

  lemma ClearOfBlock(r: Region, at: dword, len: nat, j: nat)
    requires at % BLOCK == 0 && len <= BLOCK && at <= j < at + len && r.lo % BLOCK == 0 && r.hi % BLOCK == 0
    requires at + len < 0x1_0000_0000
    ensures ClearOf(r, at, at + len) <==> !(r.lo <= j < r.hi)
  {
  }

  /** A block is refused if it does not fit the chip, or is protected: then wholly so. */
  lemma BlockAccepted(size: nat, protect: seq<Region>, at: dword, len: nat, j: nat)
    requires at % BLOCK == 0 && len <= BLOCK && at <= j < at + len < 0x1_0000_0000 && BlockAligned(protect)
    ensures Accepts(size, protect, at, len) <==> at + len <= size && !Protects(protect, j)
  {
    assert Sum32(at, len) == at + len;
    forall i | 0 <= i < |protect| ensures ClearOf(protect[i], at, at + len) <==> !(protect[i].lo <= j < protect[i].hi) {
      ClearOfBlock(protect[i], at, len, j);
    }
  }

  lemma BlockEnds(at: nat, n: nat, j: nat)
    requires at % BLOCK == 0 && at <= j < at + BLOCK && j < n
    ensures BlockEnd(n, j) == if at + BLOCK < n then at + BLOCK else n
  {
  }

  lemma {:induction false} ChunkCovers(size: nat, protect: seq<Region>, at: nat, file: seq<byte>, j: nat)
    requires at % BLOCK == 0 && BlockAligned(protect) && at + |file| < 0x1_0000_0000 && at <= j < at + |file|
    ensures |Join(Chunks(file))| == |file|
    ensures Covered(size, protect, at, Chunks(file), j) <==>
      !Protects(protect, j) && BlockEnd(at + |file|, j) <= size
    decreases |file|
  {
    hide Accepts, Protects, BlockEnd;
    ChunksJoin(file);
    var first := Chunks(file)[0];
    if j < at + |first| {
      BlockAccepted(size, protect, at, |first|, j);
      BlockEnds(at, at + |file|, j);
    } else {
      assert Chunks(file)[1..] == Chunks(file[BLOCK..]);
      ChunkCovers(size, protect, at + BLOCK, file[BLOCK..], j);
    }
  }

  /**
   A file downloaded block by block reaches the flash except for what is protected and for blocks
   that do not fit the chip; there the flash is as before.
   */
  lemma FileInFlash(flash: seq<byte>, protect: seq<Region>, file: seq<byte>, j: nat)
    requires BlockAligned(protect) && |file| < 0x1_0000_0000 && j < |flash|
    ensures Loaded(flash, protect, 0, Chunks(file))[j]
      == if IsWritten(|flash|, protect, |file|, j) then file[j] else flash[j]
  {
    hide IsWritten, Loaded, Chunks, Join, Covered;
    ChunksJoin(file);
    LoadedAt(flash, protect, 0, Chunks(file), j);
    WrittenIsCovered(|flash|, protect, file, j);
  }

  /** Byte `j` of a file of `n` bytes is neither protected nor in a block that does not fit. */
  predicate IsWritten(size: nat, protect: seq<Region>, n: nat, j: nat): (w: bool)
    ensures w ==> j < n
  {
    j < n && !Protects(protect, j) && BlockEnd(n, j) <= size
  }

  lemma WrittenIsCovered(size: nat, protect: seq<Region>, file: seq<byte>, j: nat)
    requires BlockAligned(protect) && |file| < 0x1_0000_0000
    ensures |Join(Chunks(file))| == |file|
    ensures Covered(size, protect, 0, Chunks(file), j) <==> IsWritten(size, protect, |file|, j)
  {
    hide Protects, BlockEnd, Chunks, Join, Covered, BlockAligned;
    ChunksJoin(file);
    if j < |file| {
      ChunkCovers(size, protect, 0, file, j);
    }
  }

  /** So the flash holds the file exactly when it fits and already held what of it is protected. */
  lemma FlashHoldsFileExactlyWhen(flash: seq<byte>, protect: seq<Region>, file: seq<byte>)
    requires BlockAligned(protect) && |file| < 0x1_0000_0000 && |file| <= |flash|
    ensures Loaded(flash, protect, 0, Chunks(file))[..|file|] == file <==>
      forall j :: 0 <= j < |file| && Protects(protect, j) ==> flash[j] == file[j]
  {
    hide Loaded, Protects, Chunks, BlockAligned;
    var r := Loaded(flash, protect, 0, Chunks(file));
    forall j | 0 <= j < |file| ensures r[j] == if Protects(protect, j) then flash[j] else file[j] {
      FileInFlash(flash, protect, file, j);
      assert BlockEnd(|file|, j) <= |file|;
    }
    if forall j :: 0 <= j < |file| && Protects(protect, j) ==> flash[j] == file[j] {
      assert r[..|file|] == file;
    } else {
      var j :| 0 <= j < |file| && Protects(protect, j) && flash[j] != file[j];
      assert r[..|file|][j] != file[j];
    }
  }

  /** With the shipped regions no download writes the first 4096 bytes, or those from 0x4000 to 0x1BFFF. */
  lemma ShippedRegionsStay(flash: seq<byte>, file: seq<byte>, j: nat)
    requires |file| < 0x1_0000_0000 && j < |flash| && (j < 0x1000 || 0x4000 <= j < 0x1_C000)
    ensures BlockAligned(PROTECTED) && Loaded(flash, PROTECTED, 0, Chunks(file))[j] == flash[j]
  {
    hide Loaded, Chunks;
    assert Protects(PROTECTED, j) by {
      var i := if j < 0x1000 then 0 else 1;
      assert PROTECTED[i].lo <= j < PROTECTED[i].hi;
    }
    FileInFlash(flash, PROTECTED, file, j);
  }

  /** A retransmitted full block is written twice. */
  lemma RetransmissionIsWrittenTwice(f: Frame, last: Frame, mac: seq<byte>)
    requires IsBlock(f, mac) && UdpLength(f) == FULL && IsBlock(last, mac) && 12 <= UdpLength(last) < FULL
    ensures Chunks(Payload(f) + Payload(last)) == [Payload(f), Payload(last)]
    ensures Image(Blocks([f, last], mac)) == Payload(f) + Payload(last)
    ensures Image(Blocks([f, f, last], mac)) == Payload(f) + Payload(f) + Payload(last)
  {
    hide IsData, Payload;
    var p, q := Payload(f), Payload(last);
    TwoChunks(p, q);
    assert [f, f, last][1..] == [f, last] && [f, last][1..] == [last];
    assert Blocks([f, last], mac) == [f] + [last];
    assert Blocks([f, f, last], mac) == [f] + [f, last];
    ImageOfOne(f);
    ImageOfOne(last);
    ImageAppends([f], [last]);
    ImageAppends([f], [f, last]);
    assert p + (p + q) == p + p + q;
  }

  lemma TwoChunks(p: seq<byte>, q: seq<byte>)
    requires |p| == BLOCK && |q| < BLOCK
    ensures Chunks(p + q) == [p, q]
  {
    assert (p + q)[..BLOCK] == p && (p + q)[BLOCK..] == q;
  }

  // ---------------------------------------------------------------------------
  // The firmware
  // ---------------------------------------------------------------------------

  /** Zero exactly when the first `len` bytes agree; otherwise the first difference modulo 256. */
  method ThisMemcmp(s1: array<byte>, s2: seq<byte>, len: nat) returns (value: byte)
    requires len <= s1.Length && len <= |s2|
    ensures value == 0 <==> s1[..len] == s2[..len]
    ensures value != 0 ==> exists k :: 0 <= k < len && s1[..k] == s2[..k] && value == (s1[k] as int - s2[k]) % 0x100
  {
    var i := 0;
    while i < len
      invariant 0 <= i <= len && s1[..i] == s2[..i]
    {
      value := (s1[i] as int - s2[i]) % 0x100;
      if value != 0 {
        assert s1[..len][i] != s2[..len][i];
        return;
      }
      i := i + 1;
    }
    value := 0;
  }

  /** `m` with `r` written over it at `at`. */
  ghost function Overwritten<T>(m: seq<T>, at: nat, r: seq<T>): seq<T>
    requires at + |r| <= |m|
  {
    m[..at] + r + m[at + |r|..]
  }

  lemma OverwriteNone<T>(m: seq<T>, at: nat)
    requires at <= |m|
    ensures Overwritten(m, at, []) == m
  {
  }

  lemma OverwriteNext<T>(m: seq<T>, at: nat, r: seq<T>, i: nat)
    requires at + |r| <= |m| && i < |r|
    ensures Overwritten(m, at, r[..i])[at + i := r[i]] == Overwritten(m, at, r[..i + 1])
  {
  }

  lemma RequestWritten(st: Station, mem: seq<byte>, m: seq<byte>)
    requires st.Valid() && |mem| >= DATA + BLOCK && m == UdpHeader(st, 0x45, 18) + mem[PAYLOAD..]
    ensures var r := Overwritten(m, PAYLOAD, ReadRequest());
      r == Requested(st, mem) && |r| == |mem| && r[..PAYLOAD + 18] == UdpFrame(st, 0x45, ReadRequest())
  {
    hide UdpHeader, ReadRequest;
    assert m[PAYLOAD + 18..] == mem[PAYLOAD + 18..];
  }

  class Updater {
    const station: Station
    /** `pkt_head`: received frames and outgoing packets share it. */
    const pkt: array<byte>
    const chip: Chip
    /** Everything handed to `txPkt`. */
    var sent: seq<Frame>

    predicate Valid()
      reads this
    {
      station.Valid() && pkt.Length >= DATA + BLOCK
    }

    constructor (station: Station, size: nat, chip: Chip)
      requires station.Valid() && size >= DATA + BLOCK
      ensures Valid() && fresh(pkt) && this.station == station && pkt.Length == size
      ensures this.chip == chip && sent == []
    {
      this.station := station;
      pkt := new byte[size];
      this.chip := chip;
      sent := [];
    }

    /** `blocks` have been taken since the flash was `flash0` and `sent0` had been sent. */
    ghost predicate Taken(flash0: seq<byte>, sent0: seq<Frame>, blocks: seq<Frame>, imageSize: dword)
      reads this, chip
    {
      && Valid() && AllFit(blocks) && imageSize == Sum32(0, |Image(blocks)|)
      && chip.cells == Loaded(flash0, chip.protect, 0, Payloads(blocks))
      && sent == sent0 + [UdpFrame(station, 0x45, ReadRequest())] + Answers(station, blocks)
    }

    /** `rxPkt`: the frame overwrites the front of the buffer, the bytes behind it stay. */
    method Receive(frame: Frame)
      requires |frame| <= pkt.Length
      modifies pkt
      ensures pkt[..] == frame + old(pkt[|frame|..])
    {
      forall i | 0 <= i < |frame| {
        pkt[i] := frame[i];
      }
    }

    /** The template with the server's address and both lengths filled in; the port is 69. */
    method WriteHeader(n: nat)
      requires Valid() && n <= 0xFFFF - 28
      modifies pkt
      ensures pkt[..] == UdpHeader(station, 0x45, n) + old(pkt[PAYLOAD..])
    {
      var template := Template(station);
      var i := 6;
      while i < PAYLOAD
        invariant 6 <= i <= PAYLOAD
        invariant forall k :: 6 <= k < i ==> pkt[k] == template[k]
        invariant pkt[PAYLOAD..] == old(pkt[PAYLOAD..])
      {
        pkt[i] := template[i];
        i := i + 1;
      }
      i := 0;
      while i < 6
        invariant 0 <= i <= 6
        invariant forall k :: 0 <= k < i ==> pkt[k] == station.serverMac[k]
        invariant forall k :: 6 <= k < PAYLOAD ==> pkt[k] == template[k]
        invariant pkt[PAYLOAD..] == old(pkt[PAYLOAD..])
      {
        pkt[i] := station.serverMac[i];
        i := i + 1;
      }
      assert pkt[..PAYLOAD] == station.serverMac + template[6..];
      pkt[0x10] := HighByte(28 + n);
      pkt[0x11] := LowByte(28 + n);
      pkt[0x26] := HighByte(8 + n);
      pkt[0x27] := LowByte(8 + n);
      TemplateFilled(station, n);
    }

    /** The read request that opens the transfer. */
    method SendRequest()
      requires Valid()
      modifies this`sent, pkt
      ensures sent == old(sent) + [UdpFrame(station, 0x45, ReadRequest())]
      ensures pkt[..] == Requested(station, old(pkt[..]))
    {
      hide ReadRequest, UdpHeader, UdpFrame, Requested, Overwritten;
      var request := ReadRequest();
      WriteHeader(|request|);
      ghost var m := pkt[..];
      OverwriteNone(m, PAYLOAD);
      var i := 0;
      assert request[..i] == [];
      while i < |request|
        invariant 0 <= i <= |request| && sent == old(sent)
        invariant pkt[..] == Overwritten(m, PAYLOAD, request[..i])
      {
        OverwriteNext(m, PAYLOAD, request, i);
        pkt[PAYLOAD + i] := request[i];
        i := i + 1;
      }
      assert request[..i] == request;
      RequestWritten(station, old(pkt[..]), m);
      sent := sent + [pkt[..PAYLOAD + |request|]];
    }

    method SendAck(port: word, block: word)
      requires Valid()
      modifies this`sent, pkt
      ensures sent == old(sent) + [UdpFrame(station, port, Acknowledgement(block))]
      ensures pkt[..] == UdpFrame(station, port, Acknowledgement(block)) + old(pkt[DATA..])
    {
      WriteHeader(4);
      ghost var headed, tail := pkt[..], pkt[PAYLOAD..];
      pkt[0x24] := HighByte(port);
      pkt[0x25] := LowByte(port);
      pkt[PAYLOAD] := 0x00;
      pkt[PAYLOAD + 1] := 0x04;
      pkt[PAYLOAD + 2] := HighByte(block);
      pkt[PAYLOAD + 3] := LowByte(block);
      assert pkt[..] == WithWord(WithWord(WithWord(headed, 0x24, port), PAYLOAD, 4), PAYLOAD + 2, block);
      AckFilled(station, port, block, tail);
      sent := sent + [pkt[..DATA]];
    }

    /** A DATA packet in the buffer: its data goes to flash, whatever comes of it, and the answer goes out. */
    method TakeBlock(imageSize: dword, behind: seq<byte>) returns (newSize: dword, tmp: word)
      requires Valid() && |behind| == 0x1_0000
      modifies this, pkt, chip
      ensures var m, data := old(pkt[..]), Payload(old(pkt[..]) + behind);
        && tmp == UdpLength(m) && newSize == Sum32(imageSize, |data|)
        && chip.cells == Stored(old(chip.cells), chip.protect, imageSize, data)
        && sent == old(sent) + [Answer(station, m)] && pkt[..] == Answer(station, m) + m[DATA..]
    {
      hide Stored, Sum32, UdpFrame, Payload;
      PayloadRead(pkt[..], behind);
      var memory := pkt[..] + behind;
      var blockNumber := Word(pkt[0x2C], pkt[0x2D]);
      var serverPort := Word(pkt[0x22], pkt[0x23]);
      tmp := Word(pkt[0x26], pkt[0x27]);
      var len := (tmp as int - 12) % 0x1_0000;
      var ret := chip.Write(imageSize, memory[DATA..DATA + len]);
      newSize := Sum32(imageSize, len);
      SendAck(serverPort, blockNumber);
    }

    /** The filter, on what the buffer holds. */
    method Accepts() returns (ok: bool)
      requires Valid() && |station.mac| == 6
      ensures ok == IsData(pkt[..], station.mac)
    {
      var value := ThisMemcmp(pkt, station.mac, 6);
      ok := pkt[0x0C] == 0x08 && pkt[0x0D] == 0x00 && value == 0 && pkt[0x17] == 0x11
        && pkt[0x24] == 0x23 && pkt[0x25] == 0x79 && pkt[0x2B] == 0x03;
    }

    /** One pass of the loop that finds a packet; `done` when it was a short block. */
    method Handle(a: Arrival, imageSize: dword) returns (done: bool, newSize: dword)
      requires Valid() && |a.frame| <= pkt.Length && |a.behind| == 0x1_0000
      modifies this, pkt, chip
      ensures var m := Received(old(pkt[..]), a.frame);
        var s := m + a.behind;
        && pkt[..] == Passed(station, m) && done == Ends(s, station.mac)
        && if IsBlock(s, station.mac)
           then newSize == Sum32(imageSize, |Payload(s)|) && sent == old(sent) + [Answer(station, s)]
                && chip.cells == Stored(old(chip.cells), chip.protect, imageSize, Payload(s))
           else newSize == imageSize && chip.cells == old(chip.cells) && sent == old(sent)
    {
      hide IsData, Stored, Sum32, Payload, Answer;
      Receive(a.frame);
      BehindIsNotRead(station, pkt[..], a.behind);
      var ok := Accepts();
      done, newSize := false, imageSize;
      if ok {
        var tmp;
        newSize, tmp := TakeBlock(imageSize, a.behind);
        done := tmp < FULL;
      }
    }

    /** The same pass, seen as one more block of the image. */
    method Poll(a: Arrival, imageSize: dword,
                ghost flash0: seq<byte>, ghost sent0: seq<Frame>, ghost blocks: seq<Frame>)
      returns (done: bool, newSize: dword)
      requires Taken(flash0, sent0, blocks, imageSize) && |a.frame| <= pkt.Length && |a.behind| == 0x1_0000
      modifies this, pkt, chip
      ensures var m := Received(old(pkt[..]), a.frame);
        && pkt[..] == Passed(station, m) && done == Ends(m + a.behind, station.mac)
        && Taken(flash0, sent0, With(blocks, m + a.behind, station.mac), newSize)
    {
      hide IsData, Stored, Sum32, Payload, Answer, Loaded, UdpFrame;
      ghost var s := Received(pkt[..], a.frame) + a.behind;
      if IsBlock(s, station.mac) {
        ImageGrows(flash0, chip.protect, blocks, s);
        AnswersExtend(station, blocks, s);
      }
      done, newSize := Handle(a, imageSize);
    }

    /**
     `tftp_transfer`, given everything its polling receives.  It ends, with `done`, at the first
     short block and otherwise waits for more.
     */
    method Transfer(rx: seq<Arrival>) returns (done: bool, taken: nat, imageSize: dword)
      requires Valid() && AllWithin(rx, pkt.Length)
      modifies this, pkt, chip
      ensures var seen := Buffers(station, Requested(station, old(pkt[..])), rx);
        && Taken(old(chip.cells), old(sent), Blocks(seen, station.mac), imageSize)
        && (done ==> 0 < taken <= |rx| && Ends(seen[taken - 1], station.mac) && NoneEnds(seen, station.mac, taken - 1))
        && (!done ==> taken == |rx| && NoneEnds(seen, station.mac, taken))
    {
      hide IsData, HoldsData, IsLast, Blocks, Buffers, Received, Passed, Requested, Image, Loaded, Answers, UdpFrame;
      ghost var mac, flash0, sent0 := station.mac, chip.cells, sent;
      ghost var seen := Buffers(station, Requested(station, pkt[..]), rx);
      ghost var blocks: seq<Frame> := [];
      SendRequest();
      done, taken, imageSize := false, 0, 0;
      NothingYet(station, flash0, chip.protect);
      assert rx[0..] == rx && seen[0..] == seen;
      while !done && taken < |rx|
        invariant taken <= |rx| && Taken(flash0, sent0, blocks, imageSize)
        invariant seen[taken..] == Buffers(station, pkt[..], rx[taken..])
        invariant blocks + Left(seen, mac, taken, done) == Blocks(seen, mac)
        invariant done ==> taken > 0 && Ends(seen[taken - 1], mac) && NoneEnds(seen, mac, taken - 1)
        invariant !done ==> NoneEnds(seen, mac, taken)
        decreases |rx| - taken
      {
        NextBuffer(station, pkt[..], rx, taken, seen);
        NextBlock(seen, mac, taken, blocks);
        done, imageSize := Poll(rx[taken], imageSize, flash0, sent0, blocks);
        blocks := With(blocks, seen[taken], mac);
        taken := taken + 1;
      }
      assert !done ==> seen[taken..] == [];
      assert blocks + [] == blocks;
    }
  }
}
