/** `Util::hex2rgb`: a CSS-style hex colour ("#abc", "aabbcc", ...) to a
    red/green/blue triple. */
module Hex {

  /** `str_replace('#', '', $hex)`: every '#' removed, order kept. */
  function StripHashes(s: string): (r: string)
    ensures '#' !in r
    ensures |r| <= |s|
    ensures forall c :: c != '#' ==> multiset(r)[c] == multiset(s)[c]
  {
    if |s| == 0 then ""
    else
      assert s == [s[0]] + s[1..];
      (if s[0] == '#' then "" else [s[0]]) + StripHashes(s[1..])
  }

  /** Stripping distributes over concatenation, so it keeps the order of
      the remaining characters. */
  lemma {:induction false} LemmaStripAppend(a: string, b: string)
    ensures StripHashes(a + b) == StripHashes(a) + StripHashes(b)
    decreases |a|
  {
    if |a| > 0 {
      assert (a + b)[1..] == a[1..] + b;
      LemmaStripAppend(a[1..], b);
    } else {
      assert a + b == b;
    }
  }

  /** A string without '#' is left alone. */
  lemma {:induction false} LemmaStripNoHash(s: string)
    requires '#' !in s
    ensures StripHashes(s) == s
    decreases |s|
  {
    if |s| > 0 {
      LemmaStripNoHash(s[1..]);
    }
  }

  predicate IsHexDigit(c: char) {
    ('0' <= c <= '9') || ('a' <= c <= 'f') || ('A' <= c <= 'F')
  }

  function DigitValue(c: char): (d: nat)
    requires IsHexDigit(c)
    ensures d < 16
  {
    if '0' <= c <= '9' then c as int - '0' as int
    else if 'a' <= c <= 'f' then c as int - 'a' as int + 10
    else c as int - 'A' as int + 10
  }

  /** The lower-case digit for a value below 16. */
  function DigitChar(d: nat): (c: char)
    requires d < 16
    ensures IsHexDigit(c) && DigitValue(c) == d
  {
    if d < 10 then ('0' as int + d) as char else ('a' as int + d - 10) as char
  }

  function Pow16(k: nat): (r: nat)
    ensures r >= 1
  {
    if k == 0 then 1 else 16 * Pow16(k - 1)
  }

  /** PHP's `hexdec`: the digits read most significant first; any other
      character is skipped. */
  function HexDec(s: string): (n: nat)
    ensures n < Pow16(|s|)
  {
    if |s| == 0 then 0
    else
      var init := HexDec(s[..|s| - 1]);
      var c := s[|s| - 1];
      if IsHexDigit(c) then 16 * init + DigitValue(c) else init
  }

  /** The hex digits of `s`, in order. */
  function HexOnly(s: string): (d: string)
    ensures |d| <= |s| && AllHex(d)
  {
    if |s| == 0 then ""
    else
      var c := s[|s| - 1];
      HexOnly(s[..|s| - 1]) + (if IsHexDigit(c) then [c] else "")
  }

  /** Characters other than hex digits contribute nothing. */
  lemma {:induction false} LemmaHexDecSkips(s: string)
    ensures HexDec(s) == HexDec(HexOnly(s))
    decreases |s|
  {
    if |s| > 0 {
      var init := s[..|s| - 1];
      var c := s[|s| - 1];
      LemmaHexDecSkips(init);
      if IsHexDigit(c) {
        var d := HexOnly(init) + [c];
        assert d[..|d| - 1] == HexOnly(init);
      } else {
        assert HexOnly(init) + "" == HexOnly(init);
      }
    }
  }

  /** Digits are read most significant first: the digits of `b` shift those
      of `a` up by one hex place each. */
  lemma {:induction false} LemmaHexDecConcat(a: string, b: string)
    ensures HexDec(a + b) == HexDec(a) * Pow16(|HexOnly(b)|) + HexDec(b)
    decreases |b|
  {
    if |b| == 0 {
      assert a + b == a;
    } else {
      var init := b[..|b| - 1];
      var c := b[|b| - 1];
      assert (a + b)[..|a + b| - 1] == a + init;
      assert (a + b)[|a + b| - 1] == c;
      LemmaHexDecConcat(a, init);
      if IsHexDigit(c) {
        assert HexOnly(b) == HexOnly(init) + [c];
        assert HexDec(a + b) == 16 * HexDec(a + init) + DigitValue(c);
        assert HexDec(b) == 16 * HexDec(init) + DigitValue(c);
        LemmaShift(HexDec(a), Pow16(|HexOnly(init)|), HexDec(init), DigitValue(c));
      } else {
        assert HexOnly(b) == HexOnly(init) + "";
      }
    }
  }

  lemma LemmaShift(x: nat, p: nat, y: nat, d: nat)
    ensures 16 * (x * p + y) + d == x * (16 * p) + (16 * y + d)
  {
  }

  /** `substr($s, start, len)` for non-negative arguments: the part of
      [start, start + len) that lies inside the string, possibly empty. */
  function Substr(s: string, start: nat, len: nat): (r: string)
    ensures |r| <= len
    ensures start + len <= |s| ==> r == s[start..start + len]
    ensures start >= |s| ==> r == ""
    ensures start < |s| < start + len ==> r == s[start..]
  {
    var lo := if start < |s| then start else |s|;
    var hi := if start + len < |s| then start + len else |s|;
    s[lo..hi]
  }

  /** `hex2rgb`: three components, each read from at most two characters. */
  function Hex2Rgb(hex: string): (rgb: seq<nat>)
    ensures |rgb| == 3
    ensures forall i :: 0 <= i < 3 ==> rgb[i] < 256
  {
    var h := StripHashes(hex);
    if |h| == 3 then
      [HexDec([h[0], h[0]]), HexDec([h[1], h[1]]), HexDec([h[2], h[2]])]
    else
      [HexDec(Substr(h, 0, 2)), HexDec(Substr(h, 2, 2)), HexDec(Substr(h, 4, 2))]
  }

  predicate AllHex(s: string) {
    forall i :: 0 <= i < |s| ==> IsHexDigit(s[i])
  }

  lemma LemmaTwoDigits(a: char, b: char)
    requires IsHexDigit(a) && IsHexDigit(b)
    ensures HexDec([a, b]) == 16 * DigitValue(a) + DigitValue(b)
  {
    assert [a, b][..1] == [a];
    assert [a][..0] == [];
  }

  /** Three digits are shorthand: each is doubled, so each component is
      17 times its digit, the same as the six-digit spelling. */
  lemma LemmaShortForm(hex: string)
    requires |StripHashes(hex)| == 3 && AllHex(StripHashes(hex))
    ensures var h := StripHashes(hex);
            && Hex2Rgb(hex) == [17 * DigitValue(h[0]), 17 * DigitValue(h[1]), 17 * DigitValue(h[2])]
            && Hex2Rgb(hex) == Hex2Rgb([h[0], h[0], h[1], h[1], h[2], h[2]])
  {
    var h := StripHashes(hex);
    LemmaTwoDigits(h[0], h[0]);
    LemmaTwoDigits(h[1], h[1]);
    LemmaTwoDigits(h[2], h[2]);
    var long := [h[0], h[0], h[1], h[1], h[2], h[2]];
    LemmaStripNoHash(long);
    assert Substr(long, 0, 2) == [h[0], h[0]];
    assert Substr(long, 2, 2) == [h[1], h[1]];
    assert Substr(long, 4, 2) == [h[2], h[2]];
  }

  /** What `hexdec` makes of two characters: both digits, one digit, or none. */
  function PairValue(a: char, b: char): (v: nat)
    ensures v < 256
  {
    if IsHexDigit(a) && IsHexDigit(b) then 16 * DigitValue(a) + DigitValue(b)
    else if IsHexDigit(a) then DigitValue(a)
    else if IsHexDigit(b) then DigitValue(b)
    else 0
  }

  function SingleValue(a: char): (v: nat)
    ensures v < 16
  {
    if IsHexDigit(a) then DigitValue(a) else 0
  }

  lemma LemmaTwoChars(a: char, b: char)
    ensures HexDec([a, b]) == PairValue(a, b)
  {
    assert [a, b][..1] == [a];
    assert [a][..0] == [];
  }

  lemma LemmaOneChar(a: char)
    ensures HexDec([a]) == SingleValue(a)
  {
    assert [a][..0] == [];
  }

  /** Any other length reads character pairs [0,2), [2,4), [4,6); a pair
      cut short by the end of the string reads its one character, and a pair
      that starts past the end is empty and reads as 0. */
  lemma LemmaPairs(hex: string, k: nat)
    requires |StripHashes(hex)| != 3 && k < 3
    ensures var h := StripHashes(hex);
            && (2 * k + 2 <= |h| ==> Hex2Rgb(hex)[k] == PairValue(h[2 * k], h[2 * k + 1]))
            && (2 * k + 1 == |h| ==> Hex2Rgb(hex)[k] == SingleValue(h[2 * k]))
            && (2 * k >= |h| ==> Hex2Rgb(hex)[k] == 0)
  {
    var h := StripHashes(hex);
    LemmaComponent(hex, k);
    LemmaPairOf(h, k);
  }

  /** Outside the shorthand, component k is `hexdec` of the k-th pair. */
  lemma LemmaComponent(hex: string, k: nat)
    requires |StripHashes(hex)| != 3 && k < 3
    ensures Hex2Rgb(hex)[k] == HexDec(Substr(StripHashes(hex), 2 * k, 2))
  {
  }

  lemma LemmaPairOf(h: string, k: nat)
    ensures 2 * k + 2 <= |h| ==> HexDec(Substr(h, 2 * k, 2)) == PairValue(h[2 * k], h[2 * k + 1])
    ensures 2 * k + 1 == |h| ==> HexDec(Substr(h, 2 * k, 2)) == SingleValue(h[2 * k])
    ensures 2 * k >= |h| ==> HexDec(Substr(h, 2 * k, 2)) == 0
  {
    if 2 * k + 2 <= |h| {
      assert Substr(h, 2 * k, 2) == [h[2 * k], h[2 * k + 1]];
      LemmaTwoChars(h[2 * k], h[2 * k + 1]);
    } else if 2 * k + 1 == |h| {
      assert Substr(h, 2 * k, 2) == [h[2 * k]];
      LemmaOneChar(h[2 * k]);
    }
  }

  /** The six-digit spelling of a colour, lower case. */
  function ToHex(r: nat, g: nat, b: nat): (s: string)
    requires r < 256 && g < 256 && b < 256
    ensures |s| == 6 && AllHex(s) && '#' !in s
  {
    [DigitChar(r / 16), DigitChar(r % 16), DigitChar(g / 16), DigitChar(g % 16),
     DigitChar(b / 16), DigitChar(b % 16)]
  }

  /** Parsing the six-digit spelling, with or without a leading '#', gives
      the colour back. */
  lemma LemmaRoundTrip(r: nat, g: nat, b: nat)
    requires r < 256 && g < 256 && b < 256
    ensures Hex2Rgb(ToHex(r, g, b)) == [r, g, b]
    ensures Hex2Rgb("#" + ToHex(r, g, b)) == [r, g, b]
  {
    var s := ToHex(r, g, b);
    LemmaStripNoHash(s);
    LemmaStripHashPrefix(s);
    LemmaSpelled(s, r, g, b);
    LemmaSpelled("#" + s, r, g, b);
  }

  /** Any text that is the six-digit spelling once its '#'s are gone. */
  lemma LemmaSpelled(hex: string, r: nat, g: nat, b: nat)
    requires r < 256 && g < 256 && b < 256
    requires StripHashes(hex) == ToHex(r, g, b)
    ensures Hex2Rgb(hex) == [r, g, b]
  {
    LemmaPairValue(hex, 0, r);
    LemmaPairValue(hex, 1, g);
    LemmaPairValue(hex, 2, b);
  }

  lemma LemmaStripHashPrefix(s: string)
    requires '#' !in s
    ensures StripHashes("#" + s) == s
  {
    LemmaStripNoHash(s);
    assert ("#" + s)[1..] == s;
  }

  lemma LemmaPairValue(hex: string, k: nat, v: nat)
    requires k < 3 && v < 256
    requires |StripHashes(hex)| == 6
    requires StripHashes(hex)[2 * k] == DigitChar(v / 16)
    requires StripHashes(hex)[2 * k + 1] == DigitChar(v % 16)
    ensures Hex2Rgb(hex)[k] == v
  {
    LemmaPairs(hex, k);
  }
}
