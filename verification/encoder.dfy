/** The animated-GIF assembler: a header built from the first file, one
    record per input file in input order, and the trailer byte. The PHP
    class fills a string field across a constructor loop and a mutable
    "first frame" flag; here it is a fold over frame indices, where the flag
    is `index == 0`. */
module Encoder {
  import opened Bytes
  import opened Packed
  import opened Frame
  import opened Wrappers
  import opened Folds

  /** The disposal method written into every Graphic Control Extension
      (section 23 of GIF89a): 2, restore to background. */
  const DISPOSAL: nat := 2

  datatype Error =
    | BadFrame(index: nat, defect: Defect)
    | NoFrames            // the header reads the first file, and there is none
    | MissingDelay(index: nat)

  predicate AllFramed(frames: seq<bytes>) {
    forall i :: 0 <= i < |frames| ==> Framed(frames[i])
  }

  /** A negative loop count becomes 0 (loop forever). */
  function ClampLoops(loops: int): (n: nat)
    ensures loops >= 0 ==> n == loops
    ensures loops < 0 ==> n == 0
  {
    if loops > -1 then loops else 0
  }

  /** The NETSCAPE2.0 application extension (a de-facto block in the form of
      section 26 of GIF89a) carrying the loop count. */
  function LoopExtension(loops: int): (x: bytes)
    ensures |x| == 19
    ensures x[..3] == [BANG, 0xFF, 0x0B] && x[3..14] == NETSCAPE2_0
    ensures x[14..16] == [0x03, 0x01] && x[18] == 0x00
    ensures Unword(x[16..18]) == loops % 65536
  {
    [BANG, 0xFF, 0x0B] + NETSCAPE2_0 + [0x03, 0x01] + Word(loops) + [0x00]
  }

  /** `addHeader`: always the GIF89a signature; the first file's screen
      descriptor, palette and the loop extension follow only when that file
      declares a global colour table. */
  function Header(f0: bytes, loops: int): (h: bytes)
    requires Framed(f0)
    ensures |h| >= 6 && h[..6] == GIF89A
    ensures HasGlobalTable(f0) ==>
      && |h| == TableEnd(f0) + 19
      && h[6..TableEnd(f0)] == f0[6..TableEnd(f0)]
      && h[TableEnd(f0)..] == LoopExtension(loops)
    ensures !HasGlobalTable(f0) ==> h == GIF89A
  {
    if HasGlobalTable(f0) then
      GIF89A + f0[6..13] + Palette(f0) + LoopExtension(loops)
    else
      GIF89A
  }

  /** The Graphic Control Extension put before every image: fixed disposal
      method, no transparency, and the delay's low 16 bits. */
  function ControlExtension(delay: int): (g: bytes)
    ensures |g| == 8
    ensures g[..3] == [BANG, 0xF9, 0x04] && g[6..] == [0x00, 0x00]
    ensures (g[3] / 4) % 8 == DISPOSAL && g[3] % 2 == 0
    ensures g[3] / 4 == DISPOSAL && g[3] % 4 == 0  // user-input flag and reserved bits clear
    ensures Unword(g[4..6]) == delay % 65536
  {
    [BANG, 0xF9, 0x04, DISPOSAL * 4] + Word(delay) + [0x00, 0x00]
  }

  /** The image descriptor with its packed byte (offset 9) rewritten to
      declare a local colour table of exponent `e`. */
  function Redescribe(d: bytes, e: nat): (r: bytes)
    requires |d| == 10 && e < 8
    ensures |r| == 10 && r[..9] == d[..9]
    ensures Decode(r[9]) == Fields(true, Decode(d[9]).middle, e)
  {
    d[..9] + [MarkTable(d[9], e)]
  }

  /** A record passes its image descriptor through untouched when it is the
      first record, when the file declares no global colour table, or when
      that table equals the first file's. */
  predicate KeepsDescriptor(f0: bytes, f: bytes, first: bool)
    requires Framed(f0) && Framed(f)
  {
    first || !HasGlobalTable(f) || Palette(f0) == Palette(f)
  }

  /** `addFrame` for one file. A file's own global palette is re-emitted as
      the image's local colour table unless it equals the first file's. */
  function Record(f0: bytes, f: bytes, first: bool, delay: int): (r: Result<bytes, Defect>)
    requires Framed(f0) && Framed(f)
    ensures r.Success? <==> SplitTail(Tail(f)).Success?
    ensures r.Failure? ==> r.error == SplitTail(Tail(f)).error
    ensures r.Success? ==> |r.value| >= 18 && r.value[..8] == ControlExtension(delay)
    ensures r.Success? && KeepsDescriptor(f0, f, first) ==>
      var p := SplitTail(Tail(f)).value;
      r.value == ControlExtension(delay) + p.descriptor + p.rest
    ensures r.Success? && !KeepsDescriptor(f0, f, first) ==>
      var p := SplitTail(Tail(f)).value;
      r.value == ControlExtension(delay) + Redescribe(p.descriptor, Decode(PackedByte(f)).exponent)
                 + Palette(f) + p.rest
  {
    var p :- SplitTail(Tail(f));
    var gce := ControlExtension(delay);
    if HasGlobalTable(f) && !first then
      if TableEntries(PackedByte(f0)) == TableEntries(PackedByte(f)) then
        if Palette(f0) == Palette(f) then
          Success(gce + p.descriptor + p.rest)
        else
          LemmaSameEntries(PackedByte(f0), PackedByte(f));
          Success(gce + Redescribe(p.descriptor, Decode(PackedByte(f0)).exponent) + Palette(f) + p.rest)
      else
        Success(gce + Redescribe(p.descriptor, Decode(PackedByte(f)).exponent) + Palette(f) + p.rest)
    else
      Success(gce + p.descriptor + p.rest)
  }

  /** `blockCompare`: 1 exactly when the first `len` RGB triples agree. */
  method BlockCompare(g: bytes, l: bytes, len: nat) returns (r: int)
    requires |g| >= 3 * len && |l| >= 3 * len
    ensures r == 0 || r == 1
    ensures r == 1 <==> g[..3 * len] == l[..3 * len]
  {
    var i := 0;
    while i < len
      invariant 0 <= i <= len
      invariant g[..3 * i] == l[..3 * i]
    {
      if g[3 * i] != l[3 * i] || g[3 * i + 1] != l[3 * i + 1] || g[3 * i + 2] != l[3 * i + 2] {
        assert g[..3 * len][3 * i + 2] == g[3 * i + 2];
        assert l[..3 * len][3 * i + 2] == l[3 * i + 2];
        return 0;
      }
      assert g[..3 * (i + 1)] == g[..3 * i] + g[3 * i..3 * i + 3];
      assert l[..3 * (i + 1)] == l[..3 * i] + l[3 * i..3 * i + 3];
      i := i + 1;
    }
    return 1;
  }

  /** The checks of `bufferImages`, file by file from index `i`: the first
      file that fails decides the error. */
  function ValidateFrom(frames: seq<bytes>, i: nat): (r: Result<(), Error>)
    requires i <= |frames|
    decreases |frames| - i
    ensures r.Success? <==> forall k :: i <= k < |frames| ==> Check(frames[k]).Success?
    ensures r.Failure? ==>
      && r.error.BadFrame?
      && i <= r.error.index < |frames|
      && Check(frames[r.error.index]) == Failure(r.error.defect)
      && forall k :: i <= k < r.error.index ==> Check(frames[k]).Success?
  {
    if i == |frames| then Success(())
    else match Check(frames[i])
      case Failure(d) => Failure(BadFrame(i, d))
      case Success(_) => ValidateFrom(frames, i + 1)
  }

  /** The record of file `i`, or why it cannot be built: PHP reads a missing
      delay as null, which a strictly typed `int` parameter refuses. */
  function RecordAt(frames: seq<bytes>, delays: seq<int>, i: nat): (r: Result<bytes, Error>)
    requires i < |frames| && AllFramed(frames)
    ensures r.Success? <==> i < |delays| && SplitTail(Tail(frames[i])).Success?
    ensures r.Success? ==> r.value == Record(frames[0], frames[i], i == 0, delays[i]).value
    ensures r.Success? ==> r.value[..8] == ControlExtension(delays[i])
  {
    if i >= |delays| then Failure(MissingDelay(i))
    else match Record(frames[0], frames[i], i == 0, delays[i])
      case Success(rec) => Success(rec)
      case Failure(d) => Failure(BadFrame(i, d))
  }

  /** The attempt at a record for every file, in index order. */
  function Attempts(frames: seq<bytes>, delays: seq<int>): (a: seq<Result<bytes, Error>>)
    requires AllFramed(frames)
    ensures |a| == |frames|
    ensures forall i :: 0 <= i < |frames| ==> a[i] == RecordAt(frames, delays, i)
  {
    seq(|frames|, i requires 0 <= i < |frames| => RecordAt(frames, delays, i))
  }

  /** The records of files 0..n-1: the fold that replaces the constructor's
      loop. The first file that cannot be recorded decides the error. */
  function Records(frames: seq<bytes>, delays: seq<int>, n: nat): (r: Result<seq<bytes>, Error>)
    requires n <= |frames| && AllFramed(frames)
    ensures r.Success? <==> forall i :: 0 <= i < n ==> RecordAt(frames, delays, i).Success?
    ensures r.Success? ==> |r.value| == n
  {
    Collect(Attempts(frames, delays), n)
  }

  /** One more recorded file extends the records by its record. */
  lemma LemmaRecordsStep(frames: seq<bytes>, delays: seq<int>, n: nat, recs: seq<bytes>)
    requires n < |frames| && AllFramed(frames)
    requires Records(frames, delays, n) == Success(recs)
    requires RecordAt(frames, delays, n).Success?
    ensures Records(frames, delays, n + 1) == Success(recs + [RecordAt(frames, delays, n).value])
  {
    LemmaCollectStep(Attempts(frames, delays), n);
  }

  /** The first file that cannot be recorded decides the records' error. */
  lemma LemmaRecordsStop(frames: seq<bytes>, delays: seq<int>, n: nat)
    requires n < |frames| && AllFramed(frames)
    requires Records(frames, delays, n).Success?
    requires RecordAt(frames, delays, n).Failure?
    ensures Records(frames, delays, |frames|) == Failure(RecordAt(frames, delays, n).error)
  {
    LemmaCollectFailure(Attempts(frames, delays), n, |frames|);
  }

  /** The whole encoder: constructor plus `getAnimation`. */
  function Assemble(frames: seq<bytes>, delays: seq<int>, loops: int): (r: Result<bytes, Error>)
    ensures r.Success? ==>
      && |r.value| >= 7
      && r.value[..6] == GIF89A
      && r.value[|r.value| - 1] == SEMICOLON
  {
    var ok :- ValidateFrom(frames, 0);
    if |frames| == 0 then Failure(NoFrames)
    else
      var recs :- Records(frames, delays, |frames|);
      var h := Header(frames[0], ClampLoops(loops));
      var out := h + Concat(recs) + [SEMICOLON];
      assert out[..6] == h[..6];
      Success(out)
  }

  /** `addFrame` with the palette comparison done by `blockCompare`. */
  method AddFrame(f0: bytes, f: bytes, first: bool, delay: int) returns (r: Result<bytes, Defect>)
    requires Framed(f0) && Framed(f)
    ensures r == Record(f0, f, first, delay)
  {
    var split := SplitTail(Tail(f));
    if split.Failure? {
      return Failure(split.error);
    }
    var p := split.value;
    var gce := ControlExtension(delay);
    var globalLen := TableEntries(PackedByte(f0));
    var localsLen := TableEntries(PackedByte(f));
    var globalRgb := Palette(f0);
    var localsRgb := Palette(f);
    if HasGlobalTable(f) && !first {
      if globalLen == localsLen {
        var same := BlockCompare(globalRgb, localsRgb, globalLen);
        assert globalRgb[..3 * globalLen] == globalRgb && localsRgb[..3 * globalLen] == localsRgb;
        if same == 1 {
          r := Success(gce + p.descriptor + p.rest);
        } else {
          r := Success(gce + Redescribe(p.descriptor, Decode(PackedByte(f0)).exponent) + localsRgb + p.rest);
        }
      } else {
        r := Success(gce + Redescribe(p.descriptor, Decode(PackedByte(f)).exponent) + localsRgb + p.rest);
      }
    } else {
      r := Success(gce + p.descriptor + p.rest);
    }
  }

  /** `bufferImages`: the files are checked in order and the first bad one
      stops the encoder. */
  method BufferImages(frames: seq<bytes>) returns (r: Result<(), Error>)
    ensures r == ValidateFrom(frames, 0)
  {
    var i := 0;
    while i < |frames|
      invariant i <= |frames|
      invariant ValidateFrom(frames, 0) == ValidateFrom(frames, i)
    {
      var c := Check(frames[i]);
      if c.Failure? {
        return Failure(BadFrame(i, c.error));
      }
      i := i + 1;
    }
    return Success(());
  }

  /** The constructor's loop over `addFrame`, with the class's mutable
      "first frame" flag kept as a local that is true exactly at index 0. */
  method AddFrames(frames: seq<bytes>, delays: seq<int>) returns (r: Result<bytes, Error>)
    requires |frames| > 0 && AllFramed(frames)
    ensures r.Success? <==> Records(frames, delays, |frames|).Success?
    ensures r.Success? ==> r.value == Concat(Records(frames, delays, |frames|).value)
    ensures r.Failure? ==> r.error == Records(frames, delays, |frames|).error
  {
    var image := [];
    var first := true;
    var index := 0;
    ghost var recs: seq<bytes> := [];
    while index < |frames|
      invariant index <= |frames|
      invariant first <==> index == 0
      invariant Records(frames, delays, index) == Success(recs)
      invariant image == Concat(recs)
    {
      if index >= |delays| {
        LemmaRecordsStop(frames, delays, index);
        return Failure(MissingDelay(index));
      }
      var rec := AddFrame(frames[0], frames[index], first, delays[index]);
      if rec.Failure? {
        LemmaRecordsStop(frames, delays, index);
        return Failure(BadFrame(index, rec.error));
      }
      LemmaRecordsStep(frames, delays, index, recs);
      LemmaConcatSnoc(recs, rec.value);
      image := image + rec.value;
      recs := recs + [rec.value];
      first := false;
      index := index + 1;
    }
    return Success(image);
  }

  /** The constructor followed by `getAnimation`. */
  method Encode(frames: seq<bytes>, delays: seq<int>, loops: int) returns (r: Result<bytes, Error>)
    ensures r == Assemble(frames, delays, loops)
  {
    var count := ClampLoops(loops);
    var buffered := BufferImages(frames);
    if buffered.Failure? {
      return Failure(buffered.error);
    }
    if |frames| == 0 {
      return Failure(NoFrames);
    }
    var header := Header(frames[0], count);
    var body := AddFrames(frames, delays);
    if body.Failure? {
      return Failure(body.error);
    }
    return Success(header + body.value + [SEMICOLON]);
  }
}
