/**
 Fixed-width integers of the two firmwares and their big-endian layout.
 Both C compilers use 8-bit bytes and 16-bit words; the switch CPU stores words
 most significant byte first, which is why its `ntohs` is the identity.
 */
module Bytes {
  type byte = x: int | 0 <= x < 0x100
  type word = x: int | 0 <= x < 0x1_0000

  function HighByte(w: word): byte {
    w / 0x100
  }

  function LowByte(w: word): byte {
    w % 0x100
  }

  function Word(high: byte, low: byte): word {
    high * 0x100 + low
  }

  /** The big-endian word at offset `i`. */
  function WordAt(s: seq<byte>, i: nat): word
    requires i + 1 < |s|
  {
    Word(s[i], s[i + 1])
  }

  function WordBytes(w: word): (s: seq<byte>)
    ensures |s| == 2 && WordAt(s, 0) == w
  {
    [HighByte(w), LowByte(w)]
  }

  /** `s` with the word `w` at offset `at`. */
  function WithWord(s: seq<byte>, at: nat, w: word): (r: seq<byte>)
    requires at + 1 < |s|
    ensures |r| == |s|
  {
    s[at := HighByte(w)][at + 1 := LowByte(w)]
  }

  /** The most significant byte comes first. */
  lemma BigEndian(w: word)
    ensures Word(HighByte(w), LowByte(w)) == w && WordBytes(w) == [w / 0x100, w % 0x100]
    ensures forall high: byte, low: byte :: Word(high, low) == 0x100 * high + low
  {
  }

  function Code(c: char): byte {
    c as int % 0x100
  }

  /** The bytes of a text of ASCII characters. */
  function Ascii(text: string): (s: seq<byte>)
    ensures |s| == |text| && forall i :: 0 <= i < |s| ==> s[i] == Code(text[i])
  {
    seq(|text|, i requires 0 <= i < |text| => Code(text[i]))
  }

  function Pow2(n: nat): (p: nat)
    ensures p > 0
  {
    if n == 0 then 1 else 2 * Pow2(n - 1)
  }

  /** The 16-bit signed number with the low bits of `n`. */
  function ToInt16(n: int): (i: int)
    ensures -0x8000 <= i < 0x8000
    ensures -0x8000 <= n < 0x8000 ==> i == n
    ensures i % 0x1_0000 == n % 0x1_0000
  {
    var w := n % 0x1_0000;
    if w < 0x8000 then w else w - 0x1_0000
  }

  lemma {:induction false} MultipleOfWordDropsOut(a: int, k: nat)
    ensures (a + 0x1_0000 * k) % 0x1_0000 == a % 0x1_0000
    decreases k
  {
    if k > 0 {
      MultipleOfWordDropsOut(a, k - 1);
      assert a + 0x1_0000 * k == (a + 0x1_0000 * (k - 1)) + 0x1_0000;
    }
  }
}
