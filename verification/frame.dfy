/** Reading one single-image GIF file (a "frame") the way the encoder does:
    the signature check, the offset of the block after the global palette,
    the byte scan that refuses an already-animated file, and the split of the
    remaining blocks into an image descriptor and what follows it. */
module Frame {
  import opened Bytes
  import opened Packed
  import opened Wrappers

  /** Why one input file is refused. */
  datatype Defect =
    | NotAGif          // the first six bytes are neither GIF87a nor GIF89a
    | AlreadyAnimated  // a NETSCAPE application extension was met by the scan
    | Unterminated     // the scan ran off the end without meeting ';'
    | NoDescriptor     // the block after the palette starts with neither '!' nor ','
    | ShortDescriptor  // that block is too short to hold a 10-byte image descriptor

  predicate HasSignature(b: bytes) {
    |b| >= 6 && (b[..6] == GIF87A || b[..6] == GIF89A)
  }

  /** The Logical Screen Descriptor's packed byte. PHP reads an offset past the
      end of a string as the empty string, whose `ord` is 0. */
  function PackedByte(b: bytes): (p: byte)
    ensures |b| > 10 ==> p == b[10]
    ensures |b| <= 10 ==> p == 0
  {
    if |b| > 10 then b[10] else 0
  }

  predicate HasGlobalTable(b: bytes) {
    Decode(PackedByte(b)).hasTable
  }

  /** `13 + 3 * (2 << (b[10] & 7))`: where the block after the global palette
      would start. It is computed whether or not the table flag is set. */
  function TableEnd(b: bytes): (n: nat)
    ensures n == 13 + 3 * Pow2(Decode(PackedByte(b)).exponent + 1)
    ensures 19 <= n <= 13 + 3 * 256
  {
    LemmaEntriesBound(Decode(PackedByte(b)).exponent);
    13 + TableBytes(PackedByte(b))
  }

  /** The `NETSCAPE` test at a '!' byte: the eight bytes three past it. */
  predicate NetscapeAt(b: bytes, j: nat) {
    j + 11 <= |b| && b[j] == BANG && b[j + 3..j + 11] == NETSCAPE
  }

  /** The byte at k ends the scan: a trailer, or a '!' marking NETSCAPE. */
  predicate Stops(b: bytes, k: nat) {
    k < |b| && (b[k] == SEMICOLON || NetscapeAt(b, k))
  }

  /** No byte in [s, t) ends the scan. */
  predicate Clean(b: bytes, s: nat, t: nat) {
    forall k :: s <= k < t ==> !Stops(b, k)
  }

  /** Where the scan stops: at the first trailer byte, at the first marked
      '!' byte, or never (it runs off the end of the string). */
  datatype Stop = Trailer(at: nat) | Marker(at: nat) | Runaway

  /** The scan of `bufferImages`, one byte at a time from `j`. It does not
      follow block structure: any 0x21 or 0x3B byte, also one inside image
      data, is taken as a block introducer or the trailer. */
  function Scan(b: bytes, j: nat): (r: Stop)
    decreases |b| - j
    ensures r.Trailer? ==> j <= r.at < |b| && b[r.at] == SEMICOLON && Clean(b, j, r.at)
    ensures r.Marker? ==> j <= r.at < |b| && NetscapeAt(b, r.at) && Clean(b, j, r.at)
    ensures r.Runaway? ==> Clean(b, j, |b|)
  {
    if j >= |b| then Runaway
    else if NetscapeAt(b, j) then Marker(j)
    else if b[j] == SEMICOLON then Trailer(j)
    else Scan(b, j + 1)
  }

  /** The scan stops no later than any byte that would stop it. */
  lemma {:induction false} LemmaScanStopsFirst(b: bytes, j: nat, t: nat)
    requires j <= t < |b|
    requires Stops(b, t)
    ensures !Scan(b, j).Runaway? && Scan(b, j).at <= t
    decreases t - j
  {
    if j < t && !NetscapeAt(b, j) && b[j] != SEMICOLON {
      LemmaScanStopsFirst(b, j + 1, t);
    }
  }

  /** The per-file check of `bufferImages`: on success, the index of the
      trailer byte the scan stopped at. */
  function Check(b: bytes): (r: Result<nat, Defect>)
    ensures r.Success? <==> HasSignature(b) && Scan(b, TableEnd(b)).Trailer?
    ensures r.Success? ==> TableEnd(b) <= r.value < |b| && b[r.value] == SEMICOLON
    ensures r == Failure(NotAGif) <==> !HasSignature(b)
    ensures r == Failure(AlreadyAnimated) <==> HasSignature(b) && Scan(b, TableEnd(b)).Marker?
  {
    if !HasSignature(b) then Failure(NotAGif)
    else match Scan(b, TableEnd(b))
      case Trailer(t) => Success(t)
      case Marker(_) => Failure(AlreadyAnimated)
      case Runaway => Failure(Unterminated)
  }

  /** A file that passed the check is long enough for every slice below. */
  predicate Framed(b: bytes) {
    TableEnd(b) < |b|
  }

  /** `substr($b, 13, 3 * (2 << (b[10] & 7)))`: the global palette, or the
      bytes where one would be when the flag is clear. */
  function Palette(b: bytes): (c: bytes)
    requires Framed(b)
    ensures |c| == TableBytes(PackedByte(b))
    ensures b[..TableEnd(b)] == b[..13] + c
  {
    b[13..TableEnd(b)]
  }

  /** Everything after the palette except the last byte. */
  function Tail(b: bytes): (t: bytes)
    requires Framed(b)
    ensures b == b[..TableEnd(b)] + t + [b[|b| - 1]]
  {
    b[TableEnd(b)..|b| - 1]
  }

  /** An image descriptor and the bytes that follow it. */
  datatype Parts = Parts(descriptor: bytes, rest: bytes)

  /** The `switch` on the tail's first byte: after a '!' an 8-byte extension
      block is skipped; after a ',' the descriptor starts at once. */
  function SplitTail(t: bytes): (r: Result<Parts, Defect>)
    ensures r.Success? <==> |t| > 0 && ((t[0] == BANG && |t| >= 18) || (t[0] == COMMA && |t| >= 10))
    ensures r.Success? ==> |r.value.descriptor| == 10
    ensures r.Success? && t[0] == BANG ==> t == t[..8] + r.value.descriptor + r.value.rest
    ensures r.Success? && t[0] == COMMA ==> t == r.value.descriptor + r.value.rest
    ensures r == Failure(NoDescriptor) <==> |t| == 0 || (t[0] != BANG && t[0] != COMMA)
  {
    if |t| == 0 then Failure(NoDescriptor)
    else if t[0] == BANG then
      if |t| < 18 then Failure(ShortDescriptor) else Success(Parts(t[8..18], t[18..]))
    else if t[0] == COMMA then
      if |t| < 10 then Failure(ShortDescriptor) else Success(Parts(t[..10], t[10..]))
    else Failure(NoDescriptor)
  }
}
