/** Bytes of a GIF stream and the little-endian 16-bit words stored in it. */
module Bytes {

  /** One octet of a PHP binary string. */
  type byte = x: int | 0 <= x < 256

  type bytes = seq<byte>

  /** Block introducers and the trailer, as ASCII codes. */
  const BANG: byte := 0x21       // '!' extension introducer
  const COMMA: byte := 0x2C      // ',' image separator
  const SEMICOLON: byte := 0x3B  // ';' trailer

  /** "GIF87a", "GIF89a", "NETSCAPE" and "NETSCAPE2.0" in ASCII. */
  const GIF87A: bytes := [0x47, 0x49, 0x46, 0x38, 0x37, 0x61]
  const GIF89A: bytes := [0x47, 0x49, 0x46, 0x38, 0x39, 0x61]
  const NETSCAPE: bytes := [0x4E, 0x45, 0x54, 0x53, 0x43, 0x41, 0x50, 0x45]
  const NETSCAPE2_0: bytes := NETSCAPE + [0x32, 0x2E, 0x30]

  /** The value of a two-byte little-endian word. */
  function Unword(w: bytes): (n: nat)
    requires |w| == 2
    ensures n < 65536
  {
    w[0] as int + 256 * (w[1] as int)
  }

  /** `word($int)`: the low byte then the next byte of a PHP integer. For a
      negative integer PHP's `&` and arithmetic `>>` act on the two's
      complement, which is what Euclidean `%` and `/` by a positive divisor
      compute here. */
  function Word(n: int): (w: bytes)
    ensures |w| == 2
    ensures Unword(w) == n % 65536
  {
    LemmaSplitWord(n);
    [n % 256, (n / 256) % 256]
  }

  lemma LemmaSplitWord(n: int)
    ensures n % 256 + 256 * ((n / 256) % 256) == n % 65536
  {
    var q := n / 256;
    var r0 := n % 256;
    var q2 := q / 256;
    var r1 := q % 256;
    assert n == 256 * q + r0;
    assert q == 256 * q2 + r1;
    assert n == 65536 * q2 + (256 * r1 + r0);
    assert 0 <= 256 * r1 + r0 < 65536;
  }

  /** Writing a word back from its value gives the same two bytes. */
  lemma {:induction false} LemmaWordUnword(w: bytes)
    requires |w| == 2
    ensures Word(Unword(w)) == w
  {
    var n := Unword(w);
    assert n % 256 == w[0];
    assert n / 256 == w[1];
  }

  /** Two integers get the same word exactly when they agree modulo 2^16. */
  lemma LemmaWordInjective(m: int, n: int)
    ensures Word(m) == Word(n) <==> m % 65536 == n % 65536
  {
    if m % 65536 == n % 65536 {
      LemmaWordUnword(Word(m));
      LemmaWordUnword(Word(n));
    }
  }
}
