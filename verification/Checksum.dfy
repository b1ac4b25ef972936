/**
 `icmp_inet_chksum` and the echo request that carries it: the Internet checksum of
 RFC 1071, section 1, in a 32-bit accumulator, stored big-endian into the packet.
 */
module Checksum {
  import opened Bytes

  // ---------------------------------------------------------------------------
  // The one's complement sum
  // ---------------------------------------------------------------------------

  /** The sum of the first `n` big-endian words of `data`. */
  ghost function Words(data: seq<byte>, n: nat): (s: nat)
    requires 2 * n <= |data|
    ensures s <= 0xFFFF * n
  {
    if n == 0 then 0 else Words(data, n - 1) + WordAt(data, 2 * n - 2)
  }

  /** A last odd byte counts as the high byte of a word. */
  ghost function Sum(data: seq<byte>): nat {
    Words(data, |data| / 2) + if |data| % 2 == 1 then Word(data[|data| - 1], 0) else 0
  }

  /** What adding the carries back in converges to: the residue modulo 65535, or 65535 for a non-zero multiple of it. */
  ghost function Folded(sum: nat): (w: word)
    ensures w % 0xFFFF == sum % 0xFFFF
    ensures w == 0 <==> sum == 0
  {
    if sum == 0 then 0 else (sum - 1) % 0xFFFF + 1
  }

  ghost function ChecksumOf(data: seq<byte>): word {
    0xFFFF - Folded(Sum(data))
  }

  method Compute(data: array<byte>, from: nat, len: word) returns (checksum: word)
    requires from + len <= data.Length
    ensures checksum == ChecksumOf(data[from..from + len])
  {
    var sum := Accumulate(data, from, len, data[from..from + len]);
    checksum := FoldCarries(sum);
  }

  /** The summing part, in 32 bits. */
  method Accumulate(data: array<byte>, from: nat, len: word, ghost bytes: seq<byte>) returns (sum: nat)
    requires from + len <= data.Length && bytes == data[from..from + len]
    ensures sum == Sum(bytes) < 0x1_0000_0000
  {
    sum := 0;
    var i: word := 0;
    ghost var n := 0;
    while i + 1 < len
      invariant i == 2 * n <= len && sum == Words(bytes, n)
      decreases len - i
    {
      assert data[from + i] == bytes[i] && data[from + i + 1] == bytes[i + 1];
      sum := sum + Word(data[from + i], data[from + i + 1]);
      i := i + 2;
      n := n + 1;
    }
    assert |bytes| / 2 == n;
    if i < len {
      assert data[from + i] == bytes[i];
      sum := sum + Word(data[from + i], 0);
      i := i + 1;
    }
  }

  /** The loop that folds the carries of a 32-bit sum, and the complement. */
  method FoldCarries(total: nat) returns (checksum: word)
    requires total < 0x1_0000_0000
    ensures checksum == 0xFFFF - Folded(total)
  {
    var sum: nat := total;
    while sum / 0x1_0000 != 0
      invariant sum < 0x1_0000_0000 && Folded(sum) == Folded(total)
      decreases sum
    {
      FoldKeepsResidue(sum);
      sum := sum % 0x1_0000 + sum / 0x1_0000;
    }
    checksum := 0xFFFF - sum;
  }

  lemma FoldKeepsResidue(sum: nat)
    ensures Folded(sum % 0x1_0000 + sum / 0x1_0000) == Folded(sum)
  {
    var low, high := sum % 0x1_0000, sum / 0x1_0000;
    assert sum == low + high + 0xFFFF * high;
    if sum > 0 {
      MultipleDropsOut(low + high - 1, high);
    }
  }

  lemma {:induction false} MultipleDropsOut(a: nat, k: nat)
    ensures (a + 0xFFFF * k) % 0xFFFF == a % 0xFFFF
    decreases k
  {
    if k > 0 {
      MultipleDropsOut(a, k - 1);
      assert a + 0xFFFF * k == (a + 0xFFFF * (k - 1)) + 0xFFFF;
    }
  }

  // ---------------------------------------------------------------------------
  // Properties of the checksum
  // ---------------------------------------------------------------------------

  lemma {:induction false} SameWords(a: seq<byte>, b: seq<byte>, n: nat)
    requires 2 * n <= |a| && 2 * n <= |b| && a[..2 * n] == b[..2 * n]
    ensures Words(a, n) == Words(b, n)
  {
    if n > 0 {
      assert forall i :: 0 <= i < 2 * n ==> a[i] == a[..2 * n][i] == b[..2 * n][i] == b[i];
      SameWords(a, b, n - 1);
    }
  }

  /** An odd length acts as if a zero byte followed. */
  lemma OddActsAsPadded(data: seq<byte>)
    requires |data| % 2 == 1
    ensures ChecksumOf(data + [0]) == ChecksumOf(data)
  {
    var n, padded := |data| / 2, data + [0];
    assert |padded| / 2 == n + 1;
    assert padded[..2 * n] == data[..2 * n];
    SameWords(padded, data, n);
    assert Words(padded, n + 1) == Words(padded, n) + WordAt(padded, 2 * n);
  }

  /** Data verifies if recomputing over it, stored checksum included, gives 0. */
  ghost predicate Verifies(data: seq<byte>) {
    ChecksumOf(data) == 0
  }

  lemma {:induction false} WordsWithWord(data: seq<byte>, k: nat, w: word, n: nat)
    requires 2 * k + 1 < |data| && 2 * n <= |data|
    ensures Words(WithWord(data, 2 * k, w), n) + (if k < n then WordAt(data, 2 * k) else 0)
         == Words(data, n) + (if k < n then w else 0)
  {
    if n > 0 {
      WordsWithWord(data, k, w, n - 1);
      assert n - 1 != k ==> WordAt(WithWord(data, 2 * k, w), 2 * n - 2) == WordAt(data, 2 * n - 2);
    }
  }

  /** Replacing an aligned word changes the sum by the difference. */
  lemma SumWithWord(data: seq<byte>, at: nat, w: word)
    requires at + 1 < |data| && at % 2 == 0
    ensures Sum(WithWord(data, at, w)) + WordAt(data, at) == Sum(data) + w
  {
    var k := at / 2;
    assert at == 2 * k && k < |data| / 2;
    WordsWithWord(data, k, w, |data| / 2);
  }

  lemma FoldedIsFull(sum: nat)
    ensures Folded(sum) == 0xFFFF <==> sum > 0 && sum % 0xFFFF == 0
  {
  }

  lemma ComplementCompletes(sum: nat, folded: nat)
    requires folded <= 0xFFFF && folded % 0xFFFF == sum % 0xFFFF
    ensures (sum + (0xFFFF - folded)) % 0xFFFF == 0
  {
    var q, r := sum / 0xFFFF, sum % 0xFFFF;
    assert sum == 0xFFFF * q + r;
    if folded == r {
      assert sum + (0xFFFF - folded) == 0 + 0xFFFF * (q + 1);
      MultipleDropsOut(0, q + 1);
    } else {
      assert folded == 0xFFFF && r == 0;
    }
  }

  /** Adding the complement of a folded sum makes the sum fold to all ones. */
  lemma CompletedFolds(sum: nat, folded: word, total: nat)
    requires folded == Folded(sum) && total + folded == sum + 0xFFFF
    ensures Folded(total) == 0xFFFF
  {
    ComplementCompletes(sum, folded);
    FoldedIsFull(total);
  }

  /** Storing the checksum of data whose checksum field is zero makes the data verify. */
  lemma StoredChecksumVerifies(data: seq<byte>, at: nat)
    requires at + 1 < |data| && at % 2 == 0 && WordAt(data, at) == 0
    ensures Verifies(WithWord(data, at, ChecksumOf(data)))
  {
    var c := ChecksumOf(data);
    SumWithWord(data, at, c);
    CompletedFolds(Sum(data), 0xFFFF - c, Sum(WithWord(data, at, c)));
  }

  ghost predicate AllZero(data: seq<byte>) {
    forall i :: 0 <= i < |data| ==> data[i] == 0
  }

  lemma {:induction false} WordsAreZero(data: seq<byte>, n: nat)
    requires 2 * n <= |data|
    ensures Words(data, n) == 0 <==> AllZero(data[..2 * n])
  {
    if n > 0 {
      WordsAreZero(data, n - 1);
      assert data[..2 * n] == data[..2 * (n - 1)] + [data[2 * n - 2], data[2 * n - 1]];
      ZeroParts(data[..2 * (n - 1)], [data[2 * n - 2], data[2 * n - 1]]);
    }
  }

  lemma ZeroParts(a: seq<byte>, b: seq<byte>)
    requires |b| <= 2
    ensures AllZero(a + b) <==> AllZero(a) && (|b| > 0 ==> b[0] == 0) && (|b| > 1 ==> b[1] == 0)
  {
    if AllZero(a + b) {
      assert forall i :: 0 <= i < |a| ==> (a + b)[i] == a[i];
      assert forall i :: 0 <= i < |b| ==> (a + b)[|a| + i] == b[i];
    }
  }

  lemma SumIsZero(data: seq<byte>)
    ensures Sum(data) == 0 <==> AllZero(data)
  {
    var n := |data| / 2;
    WordsAreZero(data, n);
    var rest := data[2 * n..];
    assert data == data[..2 * n] + rest;
    ZeroParts(data[..2 * n], rest);
  }

  lemma SameResidue(sum: nat, other: nat, u: word, w: word)
    requires sum % 0xFFFF == 0 && other + u == sum + w
    ensures other % 0xFFFF == 0 <==> w == u || (w == 0 && u == 0xFFFF) || (w == 0xFFFF && u == 0)
  {
    var q, p, r := sum / 0xFFFF, other / 0xFFFF, other % 0xFFFF;
    assert sum == 0xFFFF * q && other == 0xFFFF * p + r;
    assert 0xFFFF * (p - q) + r == w as int - u as int;
  }

  /**
   A verifying packet with one word replaced verifies again only for the same word, or for 0 in
   place of 65535 and the other way around; and not if the packet has become all zero.
   */
  lemma DetectsWordErrorExactlyWhen(data: seq<byte>, at: nat, w: word)
    requires at + 1 < |data| && at % 2 == 0 && Verifies(data)
    ensures var u, changed := WordAt(data, at), WithWord(data, at, w);
      Verifies(changed) <==>
        !AllZero(changed) && (w == u || (w == 0 && u == 0xFFFF) || (w == 0xFFFF && u == 0))
  {
    var sum, other := Sum(data), Sum(WithWord(data, at, w));
    SumWithWord(data, at, w);
    SumIsZero(WithWord(data, at, w));
    FoldedIsFull(sum);
    FoldedIsFull(other);
    SameResidue(sum, other, WordAt(data, at), w);
  }

  // ---------------------------------------------------------------------------
  // The sum, byte by byte
  // ---------------------------------------------------------------------------

  /** The bytes at even offsets count 256 times. */
  ghost function Weighted(data: seq<byte>): nat {
    if data == [] then 0
    else
      var n := |data| - 1;
      Weighted(data[..n]) + if n % 2 == 0 then 256 * (data[n] as int) else data[n]
  }

  lemma {:induction false} WordsOfBytes(data: seq<byte>, n: nat)
    requires 2 * n <= |data|
    ensures Words(data, n) == Weighted(data[..2 * n])
  {
    if n > 0 {
      var k := 2 * n;
      WordsOfBytes(data, n - 1);
      assert data[..k][..k - 1] == data[..k - 1] && data[..k - 1][..k - 2] == data[..k - 2];
      assert Weighted(data[..k]) == Weighted(data[..k - 1]) + data[k - 1];
    }
  }

  /** So the sum is that of section 1 of RFC 1071, an odd byte at the end included. */
  lemma SumOfBytes(data: seq<byte>)
    ensures Sum(data) == Weighted(data)
  {
    var n := |data| / 2;
    WordsOfBytes(data, n);
    if |data| % 2 == 0 {
      assert data[..2 * n] == data;
    } else {
      assert data[..|data| - 1] == data[..2 * n];
    }
  }

  /** The example of section 3 of RFC 1071. */
  lemma Rfc1071Example()
    ensures ChecksumOf([0x00, 0x01, 0xF2, 0x03, 0xF4, 0xF5, 0xF6, 0xF7]) == 0x220D
  {
    var data: seq<byte> := [0x00, 0x01, 0xF2, 0x03, 0xF4, 0xF5, 0xF6, 0xF7];
    assert Words(data, 1) == 0x0001;
    assert Words(data, 2) == 0xF204;
    assert Words(data, 3) == 0x1_E6F9;
    assert Words(data, 4) == 0x2_DDF0;
  }

  // ---------------------------------------------------------------------------
  // The echo request
  // ---------------------------------------------------------------------------

  const HEADER := 8
  const PAYLOAD := 32
  const LENGTH := HEADER + PAYLOAD
  const ICMP_ECHO: byte := 8
  /** Room for the Ethernet, VLAN and IP headers. */
  const L4_OFFSET := 38

  function EchoPayload(i: nat): byte {
    97 + i % 23
  }

  /** The request without its checksum. */
  function BareEcho(ident: word, seqNumber: word): (p: seq<byte>)
    ensures |p| == LENGTH
  {
    [ICMP_ECHO, 0, 0, 0] + WordBytes(ident) + WordBytes(seqNumber) + seq(PAYLOAD, i requires 0 <= i => EchoPayload(i))
  }

  /** An ICMP echo request: type 8, code 0, identifier and sequence number, and 32 letters, from a to w and again. */
  lemma EchoBytes(ident: word, seqNumber: word)
    ensures var p := BareEcho(ident, seqNumber);
      && |p| == 40 && p[0] == 8 && p[1] == 0 && WordAt(p, 4) == ident && WordAt(p, 6) == seqNumber
      && forall i :: 0 <= i < 32 ==> p[8 + i] == Code('a') + i % 23
  {
    var p := BareEcho(ident, seqNumber);
    assert p[4..6] == WordBytes(ident) && p[6..8] == WordBytes(seqNumber);
    assert p[4] == p[4..6][0] && p[5] == p[4..6][1] && p[6] == p[6..8][0] && p[7] == p[6..8][1];
  }

  /** Header with a zero checksum field, and payload, at `l4`. */
  method BuildBare(packet: array<byte>, l4: nat, ident: word, seqNumber: word)
    requires l4 + LENGTH <= packet.Length
    modifies packet
    ensures packet[l4..l4 + LENGTH] == BareEcho(ident, seqNumber)
    ensures packet[..l4] == old(packet[..l4]) && packet[l4 + LENGTH..] == old(packet[l4 + LENGTH..])
  {
    packet[l4], packet[l4 + 1] := ICMP_ECHO, 0;
    packet[l4 + 2], packet[l4 + 3] := 0, 0;
    packet[l4 + 4], packet[l4 + 5] := HighByte(ident), LowByte(ident);
    packet[l4 + 6], packet[l4 + 7] := HighByte(seqNumber), LowByte(seqNumber);
    ghost var bare := BareEcho(ident, seqNumber);
    for i := 0 to PAYLOAD
      invariant forall k :: 0 <= k < HEADER + i ==> packet[l4 + k] == bare[k]
      invariant packet[..l4] == old(packet[..l4]) && packet[l4 + LENGTH..] == old(packet[l4 + LENGTH..])
    {
      packet[l4 + HEADER + i] := EchoPayload(i);
    }
  }

  method StoreWord(packet: array<byte>, l4: nat, at: nat, w: word)
    requires at + 1 < LENGTH && l4 + LENGTH <= packet.Length
    modifies packet
    ensures packet[l4..l4 + LENGTH] == WithWord(old(packet[l4..l4 + LENGTH]), at, w)
    ensures packet[..l4] == old(packet[..l4]) && packet[l4 + LENGTH..] == old(packet[l4 + LENGTH..])
  {
    packet[l4 + at] := HighByte(w);
    packet[l4 + at + 1] := LowByte(w);
  }

  /**
   The packet-building part of `icmp_echo_send`.  The message verifies, and apart from the
   checksum it is the bare request; nothing outside the message is written.
   */
  method BuildEcho(packet: array<byte>, ident: word, seqNumber: word)
    requires L4_OFFSET + LENGTH <= packet.Length
    modifies packet
    ensures var message := packet[L4_OFFSET..L4_OFFSET + LENGTH];
      Verifies(message) && WithWord(message, 2, 0) == BareEcho(ident, seqNumber)
    ensures packet[..L4_OFFSET] == old(packet[..L4_OFFSET])
    ensures packet[L4_OFFSET + LENGTH..] == old(packet[L4_OFFSET + LENGTH..])
  {
    BuildBare(packet, L4_OFFSET, ident, seqNumber);
    ghost var bare := BareEcho(ident, seqNumber);
    var checksum := Compute(packet, L4_OFFSET, LENGTH);
    StoreWord(packet, L4_OFFSET, 2, checksum);
    StoredChecksumVerifies(bare, 2);
    ClearAgain(bare, ChecksumOf(bare));
  }

  lemma ClearAgain(bare: seq<byte>, w: word)
    requires |bare| > 3 && WordAt(bare, 2) == 0
    ensures WithWord(WithWord(bare, 2, w), 2, 0) == bare
  {
  }
}
