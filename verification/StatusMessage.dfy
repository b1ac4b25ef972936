/**
 The framed status message of `send_reliable_message`: a start marker, the length, the data,
 an XOR checksum and an end marker.  The lemmas say how far apart the sent bytes are.
 */
module StatusMessage {
  import opened Folding

  type Octets = seq<bv8>

  const START: bv8 := 36  // '$'
  const END: bv8 := 35  // '#'
  const CR: bv8 := 13
  const LF: bv8 := 10

  /** What is handed to the sender: data and its 8-bit length. */
  datatype Packet = Packet(length: bv8, data: Octets) {
    predicate Valid() {
      |data| == length as int
    }
  }

  function Xor(x: bv8, y: bv8): bv8 {
    x ^ y
  }

  function Message(p: Packet): (m: Octets)
    ensures |m| == |p.data| + 6 && m[1] == p.length
  {
    [START, p.length] + Coded(Xor, 0, p.data) + [END, CR, LF]
  }

  // ---------------------------------------------------------------------------
  // The code
  // ---------------------------------------------------------------------------

  method CalculateChecksum(data: array<bv8>, length: bv8) returns (checksum: bv8)
    requires length as int <= data.Length
    ensures checksum == Fold(Xor, 0, data[..length as int])
  {
    checksum := 0;
    for i := 0 to length as int
      invariant checksum == Fold(Xor, 0, data[..i])
    {
      assert data[..i + 1][..i] == data[..i];
      checksum := Xor(checksum, data[i]);
    }
  }

  class Transmitter {
    /** Everything handed to `Send_Character`. */
    var sent: Octets

    constructor ()
      ensures sent == []
    {
      sent := [];
    }

    method SendCharacter(c: bv8)
      modifies this
      ensures sent == old(sent) + [c]
    {
      sent := sent + [c];
    }

    method SendData(data: array<bv8>, length: nat)
      requires length <= data.Length
      modifies this
      ensures sent == old(sent) + data[..length]
    {
      for i := 0 to length
        invariant sent == old(sent) + data[..i]
      {
        SendCharacter(data[i]);
        assert data[..i + 1] == data[..i] + [data[i]];
      }
    }

    method SendReliableMessage(data: array<bv8>, length: bv8)
      requires length as int <= data.Length
      modifies this
      ensures sent == old(sent) + Message(Packet(length, data[..length as int]))
    {
      SendCharacter(START);
      SendCharacter(length);
      SendData(data, length as int);
      var checksum := CalculateChecksum(data, length);
      SendCharacter(checksum);
      SendCharacter(END);
      SendCharacter(CR);
      SendCharacter(LF);
      Joined(old(sent), [START, length], data[..length as int], checksum, [END, CR, LF]);
    }
  }

  lemma Joined(before: Octets, head: Octets, data: Octets, checksum: bv8, tail: Octets)
    requires |head| == 2 && |tail| == 3
    ensures before + [head[0]] + [head[1]] + data + [checksum] + [tail[0]] + [tail[1]] + [tail[2]]
         == before + (head + (data + [checksum]) + tail)
  {
  }

  /** Byte by byte: a dollar sign, the length, the data, their exclusive or, a hash sign and a line end. */
  lemma MessageBytes(p: Packet)
    requires p.Valid()
    ensures var m, n := Message(p), |p.data|;
      && |m| == n + 6 && m[0] == 0x24 && m[1] as int == n && m[2..n + 2] == p.data
      && m[n + 3] == 0x23 && m[n + 4] == 0x0D && m[n + 5] == 0x0A
      && IsParityOf(m[n + 2], p.data)
  {
    hide IsParityOf;
    var m, n := Message(p), |p.data|;
    assert m[2..n + 2] == p.data;
    assert m[n + 2] == Fold(Xor, 0, p.data);
    ParityByte(p.data);
  }

  /** A bit of `c` is set exactly when an odd number of the bytes have it. */
  ghost predicate IsParityOf(c: bv8, data: Octets) {
    forall bit :: bit in BITS ==> (Has(c, bit) <==> Count(data, bit) % 2 == 1)
  }

  lemma ParityByte(data: Octets)
    ensures IsParityOf(Fold(Xor, 0, data), data)
  {
    forall bit | bit in BITS ensures Has(Fold(Xor, 0, data), bit) <==> Count(data, bit) % 2 == 1 {
      Parity(data, bit);
    }
  }

  const BITS: set<bv8> := {0x01, 0x02, 0x04, 0x08, 0x10, 0x20, 0x40, 0x80}

  predicate Has(x: bv8, bit: bv8) {
    x & bit != 0
  }

  /** How many of the bytes have the bit. */
  function Count(data: Octets, bit: bv8): nat {
    if data == [] then 0
    else Count(data[..|data| - 1], bit) + if Has(data[|data| - 1], bit) then 1 else 0
  }

  lemma OneBit(x: bv8, y: bv8, bit: bv8)
    requires bit in BITS
    ensures Has(Xor(x, y), bit) <==> Has(x, bit) != Has(y, bit)
    ensures !Has(0, bit)
  {
    MaskDistributes(x, y, bit);
    MaskIsZeroOrBit(x, bit);
    MaskIsZeroOrBit(y, bit);
  }

  lemma MaskDistributes(x: bv8, y: bv8, bit: bv8)
    ensures (x ^ y) & bit == (x & bit) ^ (y & bit) && 0 & bit == 0
    ensures x ^ x == 0 && x ^ 0 == x && 0 ^ x == x
  {
  }

  lemma MaskIsZeroOrBit(x: bv8, bit: bv8)
    requires bit in BITS
    ensures (x & bit == 0 || x & bit == bit) && bit ^ bit == 0 && bit ^ 0 == bit && 0 ^ bit == bit && bit != 0
  {
  }

  lemma {:induction false} Parity(data: Octets, bit: bv8)
    requires bit in BITS
    ensures Has(Fold(Xor, 0, data), bit) <==> Count(data, bit) % 2 == 1
  {
    hide Xor, Has;
    if data == [] {
      OneBit(0, 0, bit);
    } else {
      Parity(data[..|data| - 1], bit);
      OneBit(Fold(Xor, 0, data[..|data| - 1]), data[|data| - 1], bit);
    }
  }

  // ---------------------------------------------------------------------------
  // A stream of messages
  // ---------------------------------------------------------------------------

  lemma MessageParts(p: Packet, r: Octets)
    ensures var m, n := Message(p) + r, |p.data|;
      m[1] == p.length && m[2..n + 2] == p.data && m[n + 6..] == r
  {
    var m, n := Message(p) + r, |p.data|;
    assert m[2..n + 2] == p.data;
  }

  /** A stream that starts with a message starts with no other one, whatever bytes the data hold. */
  lemma FirstMessageIsUnique(a: Packet, r: Octets, b: Packet, q: Octets)
    requires a.Valid() && b.Valid() && Message(a) + r == Message(b) + q
    ensures a == b && r == q
  {
    MessageParts(a, r);
    MessageParts(b, q);
  }

  /** What several packets in turn put on the wire. */
  function Stream(packets: seq<Packet>): Octets {
    if packets == [] then [] else Message(packets[0]) + Stream(packets[1..])
  }

  /** The bytes of a run of messages determine the messages. */
  lemma {:induction false} StreamIsUnambiguous(a: seq<Packet>, b: seq<Packet>)
    requires forall i :: 0 <= i < |a| ==> a[i].Valid()
    requires forall i :: 0 <= i < |b| ==> b[i].Valid()
    requires Stream(a) == Stream(b)
    ensures a == b
  {
    if a != [] && b != [] {
      FirstMessageIsUnique(a[0], Stream(a[1..]), b[0], Stream(b[1..]));
      StreamIsUnambiguous(a[1..], b[1..]);
      assert a == [a[0]] + a[1..] && b == [b[0]] + b[1..];
    }
  }

  // ---------------------------------------------------------------------------
  // The checksum
  // ---------------------------------------------------------------------------

  lemma XorInAnyOrder(x: bv8, y: bv8, z: bv8)
    ensures Xor(Xor(x, y), z) == Xor(Xor(x, z), y)
  {
  }

  lemma XorCancels(x: bv8, y: bv8, z: bv8)
    requires Xor(x, y) == Xor(x, z)
    ensures y == z
  {
  }

  lemma XorLaws()
    ensures OrderFree(Xor) && Cancels(Xor)
  {
    forall x, y, z ensures Xor(Xor(x, y), z) == Xor(Xor(x, z), y) {
      XorInAnyOrder(x, y, z);
    }
    forall x, y, z | Xor(x, y) == Xor(x, z) ensures y == z {
      XorCancels(x, y, z);
    }
  }

  /** The messages for different data of one length differ in at least two bytes. */
  lemma MessagesTwoBytesApart(a: Packet, b: Packet) returns (i: nat, j: nat)
    requires a.Valid() && b.Valid() && a.length == b.length && a != b
    ensures i < j < |Message(a)| && Message(a)[i] != Message(b)[i] && Message(a)[j] != Message(b)[j]
  {
    XorLaws();
    var k, l := TwoApart(Xor, 0, a.data, b.data);
    i, j := k + 2, l + 2;
    assert Message(a)[i] == Coded(Xor, 0, a.data)[k] && Message(b)[i] == Coded(Xor, 0, b.data)[k];
    assert Message(a)[j] == Coded(Xor, 0, a.data)[l] && Message(b)[j] == Coded(Xor, 0, b.data)[l];
  }

  /** Two bytes are all there is between some messages: the checksum does not see the order of the data. */
  lemma ExchangeUnseen(p: Packet, i: nat, j: nat)
    requires i < j < |p.data|
    ensures Message(p.(data := Exchanged(p.data, i, j))) == Exchanged(Message(p), i + 2, j + 2)
  {
    XorLaws();
    FoldOfExchanged(Xor, 0, p.data, i, j);
    Spliced([START, p.length], p.data, Fold(Xor, 0, p.data), [END, CR, LF], i, j);
  }

  lemma Spliced(h: Octets, data: Octets, checksum: bv8, t: Octets, i: nat, j: nat)
    requires |h| == 2 && i < j < |data|
    ensures h + (Exchanged(data, i, j) + [checksum]) + t == Exchanged(h + (data + [checksum]) + t, i + 2, j + 2)
  {
  }
}
