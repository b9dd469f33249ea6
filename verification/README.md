# Animated GIF assembler and hex colour parser, in Dafny

This project models the core of an e-mail countdown-timer library written in
PHP. The model covers two parts.

The first part is the `GIFEncoder` class. It takes an ordered list of
single-image GIF files, given as byte strings, plus one delay per file and a
loop count. From these it builds one animated GIF89a stream:

- a header: the GIF89a signature, followed, only when the first file declares
  a global colour table, by that file's screen descriptor and palette and a
  NETSCAPE2.0 loop extension;
- one record per input file, in input order;
- the trailer byte `;`.

Each record is made of a Graphic Control Extension, the file's Image
Descriptor, possibly that file's palette re-emitted as a Local Color Table, and
the file's remaining blocks, which are passed through as opaque bytes.

Before any of this, every input is checked. A file fails if it does not start
with `GIF87a` or `GIF89a`. A file also fails if a byte scan, starting after the
global palette, meets a `!` followed three bytes later by `NETSCAPE` before it
meets a `;`.

The second part is `Util::hex2rgb`. It turns a CSS-style colour such as `#abc`
or `aabbcc` into three components.

The PHP class fills a string field across a constructor loop and keeps a
mutable "first frame" flag. Here the encoder is a fold over frame indices, and
the flag is `index == 0`. The `Encoder.Encode` method (with `BufferImages`,
`AddFrames`, `AddFrame` and `BlockCompare`) runs the loops imperatively. It is
proved equal to the functional `Encoder.Assemble`.

The layout follows the program:

- `Bytes`: the byte type, ASCII constants, and `word`.
- `Packed`: the packed bit-field byte, covered by sections 18 and 20 of the
  GIF89a specification.
- `Frame`: reading one input file.
- `Folds`: a generic fold over results, and concatenation.
- `Encoder`: `__construct`, `bufferImages`, `addHeader`, `addFrame`,
  `blockCompare` and `getAnimation`.
- `EncoderProperties`: all-input properties of the assembled stream.
- `Hex`: `hex2rgb`.
- `Wrappers`: the `Result` type.

Exceptions and TypeErrors that PHP raises become `Failure` values of
`Encoder.Error` and `Frame.Defect`. So do a few inputs on which the PHP code
produces a malformed stream or never stops; "## Left out" lists them.

## Model

| member | source | states |
|---|---|---|
| Bytes.Word | src/GIFEncoder.php:230-233 | `word` gives exactly two bytes, the low byte first, and their little-endian value is the integer modulo 65536, negative integers included |
| Bytes.LemmaWordUnword | src/GIFEncoder.php:230-233 | every two-byte word is `word` of its own value, so reading a word back and re-encoding it is the identity |
| Bytes.LemmaWordInjective | src/GIFEncoder.php:230-233 | two integers give the same word exactly when they agree modulo 2^16 |
| Encoder.ClampLoops | src/GIFEncoder.php:70 | a negative loop count becomes 0; any other count is kept unchanged |
| EncoderProperties.LemmaLoopField | src/GIFEncoder.php:124 | the loop field of the emitted extension reads 0 for a negative count, and the count modulo 65536 otherwise |
| Packed.LemmaDecodeEncode | src/GIFEncoder.php:120-121 | decoding the packed byte into table flag, middle bits and size exponent, then encoding it, round-trips for every valid field triple |
| Packed.LemmaEncodeDecode | src/GIFEncoder.php:120-121 | the other direction: every byte is the encoding of its decoded fields |
| Packed.TableEntries | src/GIFEncoder.php:141-142 | `2 << (p & 7)` is 2 to the power of the exponent field plus one |
| Packed.LemmaSameEntries | src/GIFEncoder.php:174 | two packed bytes declare tables of equal entry count exactly when their exponent fields agree |
| Packed.MarkTable | src/GIFEncoder.php:178-181 | the rewrite `\|= 0x80; &= 0xF8; \|= e` sets the table flag, keeps bits 3..6 and puts `e` in the size field |
| Frame.Scan | src/GIFEncoder.php:99-110 | the scan stops at a trailer byte or at a `!`/NETSCAPE marker, and no byte it passed would have stopped it; if it runs off the end, no byte from its start on stops it |
| Frame.LemmaScanStopsFirst | src/GIFEncoder.php:99-110 | the scan stops no later than any byte that would stop it, so it finds the first such byte |
| Frame.Check | src/GIFEncoder.php:92-110 | a file passes exactly when it has a GIF87a/GIF89a signature and the scan from the palette end meets `;` first; a bad signature, and only that, gives NotAGif; a NETSCAPE marker met first gives AlreadyAnimated |
| Encoder.ValidateFrom | src/GIFEncoder.php:87-112 | all files pass the check exactly when the result is a success; otherwise the error names the first failing file and that file's defect |
| Encoder.BufferImages | src/GIFEncoder.php:87-112 | the loop over the files computes the same verdict as `ValidateFrom` from file 0 |
| EncoderProperties.LemmaRejectsNonGif | src/GIFEncoder.php:92-94 | a file without either signature makes the whole encoding fail, at that file or an earlier one |
| EncoderProperties.LemmaRejectsAnimated | src/GIFEncoder.php:97-104 | a NETSCAPE marker after the palette, with no `;` before it, makes the whole encoding fail, at that file or an earlier one |
| Frame.Palette | src/GIFEncoder.php:144-145 | the palette is the file's bytes from 13 up to the palette end: the file up to that point is its first 13 bytes followed by the palette, which is `3 * (2 << (b[10] & 7))` bytes long whether or not the table flag is set |
| Frame.PackedByte | src/GIFEncoder.php:97 | `ord($b{10})` is byte 10 of the file, and 0 for a file of 10 bytes or fewer |
| Frame.TableEnd | src/GIFEncoder.php:136 | the block after the palette starts at 13 plus 3 times 2 to the power of the exponent field plus one, so between 19 and 781 |
| Frame.Tail | src/GIFEncoder.php:136-139 | the file is the part before the palette end, then the tail, then its last byte |
| Frame.SplitTail | src/GIFEncoder.php:163-172 | after a `!` the 8-byte block is skipped and the next 10 bytes are the descriptor; after a `,` the descriptor starts at once; in both cases descriptor and rest rebuild the tail; any other first byte gives NoDescriptor |
| Encoder.LoopExtension | src/GIFEncoder.php:124 | the 19-byte block `21 FF 0B "NETSCAPE2.0" 03 01 lo hi 00`, whose word is the loop count modulo 65536 |
| Encoder.Header | src/GIFEncoder.php:117-126 | the header always starts with GIF89a; with the first file's table flag it continues with that file's bytes 6 up to the palette end and then the loop extension; without the flag it is exactly the signature |
| Encoder.ControlExtension | src/GIFEncoder.php:147-148 | 8 bytes `21 F9 04`, the packed byte 0x08 (disposal method 2; user-input, transparency and reserved bits clear), the delay's word, and `00 00` |
| Encoder.Redescribe | src/GIFEncoder.php:186-190 | the descriptor is unchanged except byte 9, which gains the table flag, keeps bits 3..6 and takes the given exponent |
| Encoder.Record | src/GIFEncoder.php:134-197 | a record exists exactly when the tail splits; it starts with the control extension; for the first file, a flagless file or a palette equal to the first file's, it is extension + descriptor + rest; otherwise it is extension + redescribed descriptor + the file's palette + rest |
| Encoder.BlockCompare | src/GIFEncoder.php:208-221 | returns 1 exactly when the first `len` RGB triples of both palettes agree, and 0 otherwise |
| Encoder.AddFrame | src/GIFEncoder.php:134-197 | the imperative `addFrame`, with its nested branches and `blockCompare`, computes `Record` |
| Encoder.RecordAt | src/GIFEncoder.php:76 | file i's record exists exactly when it has a delay and its tail splits; it is `Record` with `first` equal to `i == 0` |
| Encoder.Records | src/GIFEncoder.php:74-77 | the fold over files 0..n-1 succeeds exactly when every file's record exists, and then holds n records |
| Encoder.LemmaRecordsStep | src/GIFEncoder.php:74-77 | one more recordable file extends the fold by its record |
| Encoder.LemmaRecordsStop | src/GIFEncoder.php:74-77 | the first file that cannot be recorded decides the error of the whole fold |
| Encoder.AddFrames | src/GIFEncoder.php:74-77 | the constructor loop, with its first-frame flag, succeeds exactly when the fold does and then builds the concatenation of the fold's records |
| Encoder.Assemble | src/GIFEncoder.php:67-78 | a produced stream starts with GIF89a, is at least 7 bytes long and ends with the trailer `;` |
| Encoder.Encode | src/GIFEncoder.php:67-78 | the constructor followed by `getAnimation` computes exactly `Assemble` |
| EncoderProperties.LemmaAssembleSucceeds | src/GIFEncoder.php:67-112 | encoding succeeds exactly when there is at least one file, every file has a delay, passes the check and has a splittable tail |
| EncoderProperties.LemmaAssembleParts | src/GIFEncoder.php:240-243 | a produced stream is the header, then the concatenated records of all files, then `;` |
| EncoderProperties.LemmaRecordsInOrder | src/GIFEncoder.php:74-77 | the fold's i-th record is file i's record, so input order is kept |
| EncoderProperties.LemmaRecordPlacement | src/GIFEncoder.php:74-77 | in the output, file i's record sits right after the header and the records of files 0..i-1, and it begins with the control extension that carries delay i |
| EncoderProperties.LemmaLoopCount | src/GIFEncoder.php:117-126 | with the first file's table flag, the loop extension sits right after GIF89a and the first file's bytes 6 up to its palette end |
| EncoderProperties.LemmaNoLoopWithoutTable | src/GIFEncoder.php:119-125 | without that flag, the records follow the bare signature, and no screen descriptor or loop extension is written |
| Hex.StripHashes | src/Util.php:34 | no `#` is left, and every other character keeps its count |
| Hex.LemmaStripAppend | src/Util.php:34 | stripping distributes over concatenation, so the remaining characters keep their order |
| Hex.Substr | src/Util.php:37-43 | `substr` gives the in-range slice; a slice running past the end is cut at the end; a start past the end gives the empty string |
| Hex.LemmaHexDecSkips | src/Util.php:37-43 | `hexdec` ignores every character that is not a hex digit |
| Hex.LemmaHexDecConcat | src/Util.php:37-43 | `hexdec` reads digits most significant first: appending text shifts the earlier value up by one hex place per appended digit |
| Hex.Hex2Rgb | src/Util.php:32-47 | always three components, each below 256 |
| Hex.LemmaShortForm | src/Util.php:36-39 | three hex digits: each component is 17 times its digit, the same as the doubled six-digit spelling |
| Hex.LemmaPairs | src/Util.php:40-44 | any other length reads component k from characters [2k, 2k+2): two digits give 16·first + second, a pair with one hex digit gives that digit, a pair with none gives 0; a pair cut short by the end reads its single character; a pair starting past the end reads as 0 |
| Hex.LemmaRoundTrip | src/Util.php:32-47 | parsing the six-digit spelling of a colour, with or without a leading `#`, gives the colour back |

## Left out

- src/CountdownTimer.php is not part of this model. It covers GD drawing, font metrics, clock arithmetic and output buffering, all of which are foreign calls and clock-dependent.
- `Util::createFilledBox` is not modelled. It is a thin wrapper over GD.
- The transparency branch of `addFrame` (src/GIFEncoder.php:150-162) is not modelled. The transparent colour is fixed at -1 and there is no setter, so the branch is never taken.
- The compressed image data (LZW, section 22 of GIF89a) is never decoded. It stays an opaque byte sequence inside each record's rest.
- Frame.Check: PHP loops forever when no `;` follows the palette end. The model returns the defect Unterminated instead, because a diverging loop cannot be a total function.
- Frame.PackedByte: the packed byte of a file of 10 bytes or fewer reads as 0. This follows PHP reading a missing offset as the empty string.
- Frame.SplitTail: a tail that starts with neither `!` nor `,` (or is empty) leaves `$Locals_img` undefined in PHP. The PHP then differs by branch. In the pass-through branches (src/GIFEncoder.php:176, :194) it emits the control extension followed by the whole tail, with only a notice. In the rewrite branches (:178, :186) `ord(null)` under strict types is a TypeError. The model reports NoDescriptor in every branch, so it does not reproduce the malformed record of the pass-through case.
- Frame.SplitTail: where PHP's `substr` would clamp a too-short tail into a shorter descriptor, the model reports ShortDescriptor instead.
- Encoder.Assemble: an empty file list makes `addHeader` read a missing element under strict types, which is a TypeError. The model reports NoFrames instead.
- Encoder.RecordAt: a missing delay is passed as null to an `int` parameter, which is a TypeError. The model reports MissingDelay. Extra delays are ignored, as in the code.
- Hex.Substr: a start past the end gives the empty string, as in PHP 8. PHP 7 would return `false` instead.
- Hex.Hex2Rgb: characters stand for bytes. PHP's `strlen` and `substr` count bytes, but a Dafny string counts characters, so the model agrees with PHP only on ASCII input. On "éab", for example, PHP sees 4 bytes and takes the pair branch.
- Hex.HexDec: non-hex characters are skipped, as PHP's `hexdec` does. The warning PHP 8 emits for them is not modelled.
- PHP's 64-bit integers are modelled as unbounded integers. Only the word encoding truncates, and it does so explicitly, modulo 65536.
- Thrown exception messages and their classes are not modelled. The unqualified `Exception` at src/GIFEncoder.php:93 is one such case; each is a `Failure` value.

More facts about the code that the model follows:

- Encoder.Record: a palette equal to the first file's leaves the descriptor unmodified, table flag included (src/GIFEncoder.php:176).
- Encoder.Record: a palette of the same size but different contents still gets the descriptor rewritten, with the table flag and the first file's exponent (src/GIFEncoder.php:177-183).
- Frame.TableEnd: the palette is skipped as `3 * (2 << (b[10] & 7))` bytes whether or not the table flag is set (src/GIFEncoder.php:97, :136).
- Encoder.Header: without the first file's table flag, only `GIF89a` is written, with no Logical Screen Descriptor (src/GIFEncoder.php:119-125).
- The output is not always shorter than the inputs together, even when every palette matches the first. For a single file, the header adds a 19-byte loop extension and the record adds an 8-byte control extension. No member states a length bound.
