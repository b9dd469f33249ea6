/** The packed bit-field byte found at offset 10 of a GIF file (Logical Screen
    Descriptor, section 18 of GIF89a) and at offset 9 of an Image Descriptor
    (section 20). The encoder only ever looks at bit 7 (a colour table is
    present) and bits 0..2 (the table's size exponent); bits 3..6 are carried
    through unchanged. */
module Packed {
  import opened Bytes

  datatype Fields = Fields(hasTable: bool, middle: nat, exponent: nat)

  predicate ValidFields(f: Fields) {
    f.middle < 16 && f.exponent < 8
  }

  function Decode(p: byte): (f: Fields)
    ensures ValidFields(f)
  {
    Fields(p >= 0x80, (p / 8) % 16, p % 8)
  }

  function Encode(f: Fields): (p: byte)
    requires ValidFields(f)
  {
    (if f.hasTable then 0x80 else 0) + 8 * f.middle + f.exponent
  }

  lemma LemmaDecodeEncode(f: Fields)
    requires ValidFields(f)
    ensures Decode(Encode(f)) == f
  {
    var p := Encode(f);
    var hi := if f.hasTable then 1 else 0;
    assert p == 8 * (16 * hi + f.middle) + f.exponent;
    assert p / 8 == 16 * hi + f.middle;
  }

  lemma LemmaEncodeDecode(p: byte)
    ensures Encode(Decode(p)) == p
  {
  }

  function Pow2(k: nat): (r: nat)
    ensures r >= 1
  {
    if k == 0 then 1 else 2 * Pow2(k - 1)
  }

  lemma {:induction false} LemmaPow2Monotone(j: nat, k: nat)
    requires j < k
    ensures Pow2(j) < Pow2(k)
  {
    if j + 1 < k {
      LemmaPow2Monotone(j, k - 1);
    }
  }

  /** A table has at most 256 entries. */
  lemma LemmaEntriesBound(e: nat)
    requires e < 8
    ensures Pow2(e + 1) <= 256
  {
    if e < 7 {
      LemmaPow2Monotone(e + 1, 8);
    }
    assert Pow2(8) == 2 * Pow2(7) == 4 * Pow2(6) == 8 * Pow2(5) == 16 * Pow2(4);
  }

  /** `2 << (p & 7)`: the number of RGB entries of the table the byte declares. */
  function TableEntries(p: byte): (n: nat)
    ensures n == Pow2(Decode(p).exponent + 1)
  {
    2 * Pow2(p % 8)
  }

  /** `3 * (2 << (p & 7))`: the table's size in bytes. */
  function TableBytes(p: byte): nat {
    3 * TableEntries(p)
  }

  /** Two packed bytes declare tables with the same number of entries
      exactly when their size exponents agree. */
  lemma LemmaSameEntries(p: byte, q: byte)
    ensures TableEntries(p) == TableEntries(q) <==> p % 8 == q % 8
  {
    if p % 8 < q % 8 {
      LemmaPow2Monotone(p % 8, q % 8);
    } else if q % 8 < p % 8 {
      LemmaPow2Monotone(q % 8, p % 8);
    }
  }

  /** The rewrite `$byte |= 0x80; $byte &= 0xF8; $byte |= e`: raise the
      table flag, keep bits 3..6, and put `e` in the size field. */
  function MarkTable(p: byte, e: nat): (q: byte)
    requires e < 8
    ensures Decode(q) == Fields(true, Decode(p).middle, e)
  {
    var v := (((p as bv8) | 0x80) & 0xF8) | (e as bv8);
    LemmaMarkTableBits(p, e);
    LemmaDecodeEncode(Fields(true, Decode(p).middle, e));
    v as int
  }

  lemma LemmaMarkTableBits(p: byte, e: nat)
    requires e < 8
    ensures ((((p as bv8) | 0x80) & 0xF8) | (e as bv8)) as int == Encode(Fields(true, Decode(p).middle, e))
  {
    var pb := p as bv8;
    var eb := e as bv8;
    var mid := pb & 0x78;
    assert (((pb | 0x80) & 0xF8) | eb) == 0x80 | mid | eb;
    LemmaToBitsAndBack(p, e);
    LemmaDisjointOr(mid, eb);
    LemmaMiddleBits(pb);
  }

  lemma LemmaToBitsAndBack(p: byte, e: nat)
    requires e < 8
    ensures (p as bv8) as int == p && (e as bv8) as int == e
  {
  }

  lemma LemmaDisjointOr(mid: bv8, eb: bv8)
    requires mid & 0x87 == 0 && eb < 8
    ensures (0x80 | mid | eb) as int == 0x80 + mid as int + eb as int
  {
  }

  lemma LemmaMiddleBits(v: bv8)
    ensures (v & 0x78) as int == 8 * ((v as int / 8) % 16)
  {
  }
}
