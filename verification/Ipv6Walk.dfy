/**
 `ipv6_up`: the walk over IPv6 extension headers to the one upper-layer protocol that is
 supported, ICMPv6 with MLD.  Hop-by-Hop, Routing and Destination Options headers (sections
 4.3, 4.4 and 4.6 of RFC 8200) are skipped; anything else ends the walk.
 */
module Ipv6Walk {
  import opened Bytes

  const HOP_BY_HOP: byte := 0x00
  const ROUTING: byte := 0x2B
  const DEST_OPTIONS: byte := 0x3C
  const ICMPV6: byte := 0x3A
  const FIXED_HEADER := 40
  const NEXT_HEADER := 6

  // ---------------------------------------------------------------------------
  // Header chains
  // ---------------------------------------------------------------------------

  predicate Skippable(kind: byte) {
    kind == HOP_BY_HOP || kind == ROUTING || kind == DEST_OPTIONS
  }

  /** An extension header: its kind, and its length in units of 8 bytes beyond the first 8. */
  datatype Ext = Ext(kind: byte, extLen: byte)

  function Length(e: Ext): nat {
    (e.extLen + 1) * 8
  }

  function TotalLength(exts: seq<Ext>): nat {
    if exts == [] then 0 else Length(exts[0]) + TotalLength(exts[1..])
  }

  /**
   The packet holds the headers `exts` from offset `o` on, announced by `kind`: each names the
   kind of the next, and the last one names `final`.
   */
  ghost predicate Laid(p: seq<byte>, kind: byte, o: nat, exts: seq<Ext>, final: byte)
    decreases |exts|
  {
    if exts == [] then kind == final
    else
      && kind == exts[0].kind && Skippable(kind)
      && o + Length(exts[0]) <= |p| && p[o + 1] == exts[0].extLen
      && Laid(p, p[o], o + Length(exts[0]), exts[1..], final)
  }

  /** Every skippable header met on the way lies in the packet. */
  ghost predicate WellFormed(p: seq<byte>, kind: byte, o: nat)
    decreases |p| - o
  {
    Skippable(kind) ==>
      && o + 2 <= |p|
      && o + Length(Ext(kind, p[o + 1])) <= |p|
      && WellFormed(p, p[o], o + Length(Ext(kind, p[o + 1])))
  }

  /** The headers a walk skips. */
  ghost function Chain(p: seq<byte>, kind: byte, o: nat): seq<Ext>
    requires WellFormed(p, kind, o)
    decreases |p| - o
  {
    if !Skippable(kind) then []
    else
      var e := Ext(kind, p[o + 1]);
      [e] + Chain(p, p[o], o + Length(e))
  }

  /** The kind of the header a walk stops at. */
  ghost function Final(p: seq<byte>, kind: byte, o: nat): (final: byte)
    requires WellFormed(p, kind, o)
    ensures !Skippable(final)
    decreases |p| - o
  {
    if !Skippable(kind) then kind else Final(p, p[o], o + Length(Ext(kind, p[o + 1])))
  }

  /** The chain of a well-formed packet is laid out in it. */
  lemma {:induction false} ChainIsLaid(p: seq<byte>, kind: byte, o: nat)
    requires WellFormed(p, kind, o)
    ensures Laid(p, kind, o, Chain(p, kind, o), Final(p, kind, o))
    decreases |p| - o
  {
    if Skippable(kind) {
      var e := Ext(kind, p[o + 1]);
      ChainIsLaid(p, p[o], o + Length(e));
      assert Chain(p, kind, o)[1..] == Chain(p, p[o], o + Length(e));
    }
  }

  /** No other chain that ends in a header the walk stops at is laid out in it. */
  lemma {:induction false} ChainIsUnique(p: seq<byte>, kind: byte, o: nat, exts: seq<Ext>, final: byte)
    requires WellFormed(p, kind, o) && !Skippable(final) && Laid(p, kind, o, exts, final)
    ensures exts == Chain(p, kind, o) && final == Final(p, kind, o)
    decreases |exts|
  {
    if exts != [] {
      var e := exts[0];
      assert e == Ext(kind, p[o + 1]);
      ChainIsUnique(p, p[o], o + Length(e), exts[1..], final);
      assert exts == [e] + exts[1..];
    }
  }

  // ---------------------------------------------------------------------------
  // The walk
  // ---------------------------------------------------------------------------

  ghost predicate Reaches(p: seq<byte>, l3: nat, exts: seq<Ext>)
    requires l3 + FIXED_HEADER <= |p|
  {
    Laid(p, p[l3 + NEXT_HEADER], l3 + FIXED_HEADER, exts, ICMPV6)
  }

  /**
   `mld` tells whether the packet is handed to MLD, which is exactly when its extension headers
   are all skippable and end in ICMPv6; `l4` is then the offset behind them.
   */
  method Up(p: array<byte>, l3: nat) returns (mld: bool, l4: nat)
    requires l3 + FIXED_HEADER <= p.Length
    requires WellFormed(p[..], p[l3 + NEXT_HEADER], l3 + FIXED_HEADER)
    ensures mld <==> exists exts :: Reaches(p[..], l3, exts)
    ensures mld ==> forall exts :: Reaches(p[..], l3, exts) ==> l4 == l3 + FIXED_HEADER + TotalLength(exts)
    ensures l3 + FIXED_HEADER <= l4 <= p.Length
  {
    ghost var s, first := p[..], p[l3 + NEXT_HEADER];
    l4 := l3 + FIXED_HEADER;
    var nextHdr := p[l3 + NEXT_HEADER];
    while nextHdr != ICMPV6
      invariant l3 + FIXED_HEADER <= l4 <= p.Length && WellFormed(s, nextHdr, l4)
      invariant Final(s, nextHdr, l4) == Final(s, first, l3 + FIXED_HEADER)
      invariant l4 + TotalLength(Chain(s, nextHdr, l4))
             == l3 + FIXED_HEADER + TotalLength(Chain(s, first, l3 + FIXED_HEADER))
      decreases p.Length - l4
    {
      var listed := InNextHdrList(nextHdr);
      if !listed {
        NotReached(s, l3);
        return false, l4;
      }
      ghost var e := Ext(nextHdr, p[l4 + 1]);
      assert Chain(s, nextHdr, l4)[1..] == Chain(s, p[l4], l4 + Length(e));
      var header := l4;
      var extLen: int := p[header + 1];
      l4 := l4 + (extLen + 1) * 8;
      nextHdr := p[header];
    }
    mld := true;
    Reached(s, l3);
    assert Reaches(p[..], l3, Chain(s, first, l3 + FIXED_HEADER));
  }

  /** The search of `next_hdr_list`. */
  method InNextHdrList(kind: byte) returns (found: bool)
    ensures found == Skippable(kind)
  {
    var nextHdrList := [HOP_BY_HOP, ROUTING, DEST_OPTIONS];
    var i := 0;
    while i < |nextHdrList| && nextHdrList[i] != kind
      invariant 0 <= i <= |nextHdrList|
      invariant forall k :: 0 <= k < i ==> nextHdrList[k] != kind
    {
      i := i + 1;
    }
    assert i == 3 ==> nextHdrList[0] != kind && nextHdrList[1] != kind && nextHdrList[2] != kind;
    found := i < |nextHdrList|;
  }

  lemma Reached(p: seq<byte>, l3: nat)
    requires l3 + FIXED_HEADER <= |p| && WellFormed(p, p[l3 + NEXT_HEADER], l3 + FIXED_HEADER)
    requires Final(p, p[l3 + NEXT_HEADER], l3 + FIXED_HEADER) == ICMPV6
    ensures var chain := Chain(p, p[l3 + NEXT_HEADER], l3 + FIXED_HEADER);
      Reaches(p, l3, chain) && forall exts :: Reaches(p, l3, exts) ==> exts == chain
  {
    ChainIsLaid(p, p[l3 + NEXT_HEADER], l3 + FIXED_HEADER);
    forall exts | Reaches(p, l3, exts) ensures exts == Chain(p, p[l3 + NEXT_HEADER], l3 + FIXED_HEADER) {
      ChainIsUnique(p, p[l3 + NEXT_HEADER], l3 + FIXED_HEADER, exts, ICMPV6);
    }
  }

  lemma NotReached(p: seq<byte>, l3: nat)
    requires l3 + FIXED_HEADER <= |p| && WellFormed(p, p[l3 + NEXT_HEADER], l3 + FIXED_HEADER)
    requires Final(p, p[l3 + NEXT_HEADER], l3 + FIXED_HEADER) != ICMPV6
    ensures forall exts :: !Reaches(p, l3, exts)
  {
    forall exts ensures !Reaches(p, l3, exts) {
      if Reaches(p, l3, exts) {
        ChainIsUnique(p, p[l3 + NEXT_HEADER], l3 + FIXED_HEADER, exts, ICMPV6);
      }
    }
  }

  // ---------------------------------------------------------------------------
  // Packets, built header by header
  // ---------------------------------------------------------------------------

  /** An extension header by its kind and the bytes behind its first two. */
  datatype Header = Header(kind: byte, body: seq<byte>)

  /** One of the three kinds, and a whole number of 8-byte units, at most 256 of them. */
  predicate IsHeader(h: Header) {
    h.kind in {0, 43, 60} && (|h.body| + 2) % 8 == 0 && 8 <= |h.body| + 2 <= 2048
  }

  predicate AreHeaders(hs: seq<Header>) {
    forall i :: 0 <= i < |hs| ==> IsHeader(hs[i])
  }

  /** What the header before them names: the first of the headers, or what follows them. */
  function Announced(hs: seq<Header>, final: byte): byte {
    if hs == [] then final else hs[0].kind
  }

  /** The number of 8-byte units beyond the first, as section 4 of RFC 8200 has it. */
  function Units(h: Header): byte
    requires IsHeader(h)
  {
    (|h.body| + 2) / 8 - 1
  }

  function BytesOf(hs: seq<Header>, final: byte): seq<byte>
    requires AreHeaders(hs)
  {
    if hs == [] then []
    else [Announced(hs[1..], final), Units(hs[0])] + hs[0].body + BytesOf(hs[1..], final)
  }

  function ExtsOf(hs: seq<Header>): seq<Ext>
    requires AreHeaders(hs)
  {
    if hs == [] then [] else [Ext(hs[0].kind, Units(hs[0]))] + ExtsOf(hs[1..])
  }

  lemma LengthOfHeader(h: Header)
    requires IsHeader(h)
    ensures Length(Ext(h.kind, Units(h))) == |h.body| + 2 && Skippable(h.kind)
  {
  }

  lemma FirstOfBytes(p: seq<byte>, o: nat, first: seq<byte>, rest: seq<byte>)
    requires o + |first| + |rest| <= |p| && p[o..o + |first| + |rest|] == first + rest
    ensures p[o + |first|..o + |first| + |rest|] == rest
    ensures forall k :: 0 <= k < |first| ==> p[o + k] == first[k]
  {
    var s := p[o..o + |first| + |rest|];
    assert s[|first|..] == rest;
    assert forall k :: 0 <= k < |first| ==> p[o + k] == s[k];
  }

  lemma OneMoreHeader(p: seq<byte>, o: nat, e: Ext, exts: seq<Ext>, final: byte)
    requires o + Length(e) <= |p| && Skippable(e.kind) && p[o + 1] == e.extLen
    requires Laid(p, p[o], o + Length(e), exts, final)
    ensures Laid(p, e.kind, o, [e] + exts, final) && TotalLength([e] + exts) == Length(e) + TotalLength(exts)
    ensures WellFormed(p, p[o], o + Length(e)) ==> WellFormed(p, e.kind, o)
  {
    assert ([e] + exts)[1..] == exts;
    assert Ext(e.kind, p[o + 1]) == e;
  }

  lemma NoHeaders(p: seq<byte>, o: nat, final: byte)
    ensures Laid(p, final, o, [], final) && (final !in {0, 43, 60} ==> WellFormed(p, final, o))
  {
  }

  /** The headers are laid out where their bytes are, and take up as many. */
  lemma {:induction false} HeadersAreLaid(p: seq<byte>, o: nat, hs: seq<Header>, final: byte)
    requires AreHeaders(hs) && o + |BytesOf(hs, final)| <= |p|
    requires p[o..o + |BytesOf(hs, final)|] == BytesOf(hs, final)
    ensures Laid(p, Announced(hs, final), o, ExtsOf(hs), final)
    ensures TotalLength(ExtsOf(hs)) == |BytesOf(hs, final)|
    ensures final !in {0, 43, 60} ==> WellFormed(p, Announced(hs, final), o)
    decreases |hs|
  {
    hide Length, Units, Laid, WellFormed;
    if hs == [] {
      NoHeaders(p, o, final);
    } else {
      var h, rest := hs[0], hs[1..];
      LengthOfHeader(h);
      FirstOfBytes(p, o, [Announced(rest, final), Units(h)] + h.body, BytesOf(rest, final));
      HeadersAreLaid(p, o + |h.body| + 2, rest, final);
      OneMoreHeader(p, o, Ext(h.kind, Units(h)), ExtsOf(rest), final);
    }
  }

  /**
   A packet built of a fixed header, extension headers and an upper-layer header of kind `final` is
   walked to the end: MLD is reached iff that is 58, ICMPv6, and then right behind the headers.
   */
  lemma HeadersAreWalked(p: seq<byte>, l3: nat, hs: seq<Header>, final: byte)
    requires AreHeaders(hs) && final !in {0, 43, 60} && l3 + 40 + |BytesOf(hs, final)| <= |p|
    requires p[l3 + 6] == Announced(hs, final)
    requires p[l3 + 40..l3 + 40 + |BytesOf(hs, final)|] == BytesOf(hs, final)
    ensures WellFormed(p, p[l3 + 6], l3 + 40)
    ensures (exists exts :: Reaches(p, l3, exts)) <==> final == 58
    ensures forall exts :: Reaches(p, l3, exts) ==> TotalLength(exts) == |BytesOf(hs, final)|
  {
    HeadersAreLaid(p, l3 + 40, hs, final);
    ChainIsUnique(p, p[l3 + 6], l3 + 40, ExtsOf(hs), final);
    if final == 58 {
      Reached(p, l3);
      assert Reaches(p, l3, ExtsOf(hs));
    } else {
      NotReached(p, l3);
    }
  }
}
