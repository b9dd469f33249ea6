/** What the assembled stream looks like, stated over all inputs. */
module EncoderProperties {
  import opened Bytes
  import opened Packed
  import opened Frame
  import opened Wrappers
  import opened Encoder
  import opened Folds

  /** Every file passes the check, has a descriptor after its palette and
      has a delay. */
  predicate Assemblable(frames: seq<bytes>, delays: seq<int>) {
    && |frames| > 0
    && |delays| >= |frames|
    && forall i :: 0 <= i < |frames| ==> Check(frames[i]).Success? && SplitTail(Tail(frames[i])).Success?
  }

  /** Assembly succeeds exactly on assemblable input. */
  lemma {:induction false} LemmaAssembleSucceeds(frames: seq<bytes>, delays: seq<int>, loops: int)
    ensures Assemble(frames, delays, loops).Success? <==> Assemblable(frames, delays)
  {
    if Assemblable(frames, delays) {
      assert ValidateFrom(frames, 0).Success?;
      forall i | 0 <= i < |frames|
        ensures RecordAt(frames, delays, i).Success?
      {
        assert SplitTail(Tail(frames[i])).Success?;
      }
    }
    if Assemble(frames, delays, loops).Success? {
      assert ValidateFrom(frames, 0).Success? && |frames| > 0;
      assert Records(frames, delays, |frames|).Success?;
      forall i | 0 <= i < |frames|
        ensures i < |delays| && SplitTail(Tail(frames[i])).Success?
      {
        assert RecordAt(frames, delays, i).Success?;
      }
      assert |frames| - 1 < |delays|;
    }
  }

  /** A file that does not start with GIF87a or GIF89a makes assembly fail,
      at that file or at an earlier bad one. */
  lemma LemmaRejectsNonGif(frames: seq<bytes>, delays: seq<int>, loops: int, i: nat)
    requires i < |frames| && !HasSignature(frames[i])
    ensures Assemble(frames, delays, loops).Failure?
    ensures Assemble(frames, delays, loops).error.BadFrame?
    ensures Assemble(frames, delays, loops).error.index <= i
  {
    assert Check(frames[i]) == Failure(NotAGif);
  }

  /** A '!' followed three bytes later by NETSCAPE, met by the scan before
      any ';', makes assembly fail. */
  lemma LemmaRejectsAnimated(frames: seq<bytes>, delays: seq<int>, loops: int, i: nat, j: nat)
    requires i < |frames| && HasSignature(frames[i])
    requires TableEnd(frames[i]) <= j && NetscapeAt(frames[i], j)
    requires forall k :: TableEnd(frames[i]) <= k < j ==> frames[i][k] != SEMICOLON
    ensures Assemble(frames, delays, loops).Failure?
    ensures Assemble(frames, delays, loops).error.BadFrame?
    ensures Assemble(frames, delays, loops).error.index <= i
  {
    var b := frames[i];
    LemmaScanStopsFirst(b, TableEnd(b), j);
    assert !Scan(b, TableEnd(b)).Trailer?;
    assert Check(b).Failure?;
  }

  /** The fold keeps input order: its i-th element is file i's record. */
  lemma LemmaRecordsInOrder(frames: seq<bytes>, delays: seq<int>, n: nat, i: nat)
    requires n <= |frames| && AllFramed(frames)
    requires Records(frames, delays, n).Success? && i < n
    ensures RecordAt(frames, delays, i).Success?
    ensures Records(frames, delays, n).value[i] == RecordAt(frames, delays, i).value
  {
    LemmaCollectValues(Attempts(frames, delays), n, i);
  }

  /** A successful assembly is the header, the records of all files in
      order, and the trailer. */
  lemma LemmaAssembleParts(frames: seq<bytes>, delays: seq<int>, loops: int)
    requires Assemble(frames, delays, loops).Success?
    ensures |frames| > 0 && AllFramed(frames)
    ensures Records(frames, delays, |frames|).Success?
    ensures Assemble(frames, delays, loops).value
         == Header(frames[0], ClampLoops(loops)) + Concat(Records(frames, delays, |frames|).value) + [SEMICOLON]
  {
  }

  /** In the output, file i's record comes right after the header and the
      records of files 0..i-1, and begins with the control extension that
      carries file i's delay. */
  lemma LemmaRecordPlacement(frames: seq<bytes>, delays: seq<int>, loops: int, i: nat)
    requires Assemble(frames, delays, loops).Success? && i < |frames|
    ensures AllFramed(frames) && i < |delays| && RecordAt(frames, delays, i).Success?
    ensures Records(frames, delays, |frames|).Success?
    ensures Placed(Assemble(frames, delays, loops).value,
                   Header(frames[0], ClampLoops(loops)) + Concat(Records(frames, delays, |frames|).value[..i]),
                   RecordAt(frames, delays, i).value)
    ensures RecordAt(frames, delays, i).value[..8] == ControlExtension(delays[i])
  {
    LemmaAssembleParts(frames, delays, loops);
    var recs := Records(frames, delays, |frames|).value;
    LemmaRecordsInOrder(frames, delays, |frames|, i);
    LemmaStreamPlacement(Header(frames[0], ClampLoops(loops)), recs, i);
  }

  lemma LemmaStreamPlacement(h: bytes, recs: seq<bytes>, i: nat)
    requires i < |recs|
    ensures Placed(h + Concat(recs) + [SEMICOLON], h + Concat(recs[..i]), recs[i])
  {
    LemmaConcatPlaced(recs, i);
    LemmaPlacedWithin(h, Concat(recs), [SEMICOLON], Concat(recs[..i]), recs[i]);
  }

  /** The loop count reaches the stream only through the first file's global
      colour table. With the table, the stream opens with GIF89a, the first
      file's screen descriptor and palette, and the loop extension. */
  lemma LemmaLoopCount(frames: seq<bytes>, delays: seq<int>, loops: int, out: bytes)
    requires Assemble(frames, delays, loops) == Success(out)
    ensures |frames| > 0 && Framed(frames[0])
    ensures HasGlobalTable(frames[0]) ==>
      Placed(out, GIF89A + frames[0][6..TableEnd(frames[0])], LoopExtension(ClampLoops(loops)))
  {
    LemmaAssembleParts(frames, delays, loops);
    if HasGlobalTable(frames[0]) {
      var h := Header(frames[0], ClampLoops(loops));
      var body := Concat(Records(frames, delays, |frames|).value);
      var pre := GIF89A + frames[0][6..TableEnd(frames[0])];
      var x := LoopExtension(ClampLoops(loops));
      LemmaHeaderPlacesLoops(frames[0], ClampLoops(loops));
      LemmaPlacedExtend(h, body, pre, x);
      LemmaPlacedExtend(h + body, [SEMICOLON], pre, x);
    }
  }

  /** Without the table, no loop extension is written: the records follow
      the bare signature. */
  lemma LemmaNoLoopWithoutTable(frames: seq<bytes>, delays: seq<int>, loops: int, out: bytes)
    requires Assemble(frames, delays, loops) == Success(out)
    ensures |frames| > 0 && Framed(frames[0]) && Records(frames, delays, |frames|).Success?
    ensures !HasGlobalTable(frames[0]) ==>
      out == GIF89A + Concat(Records(frames, delays, |frames|).value) + [SEMICOLON]
  {
    LemmaAssembleParts(frames, delays, loops);
  }

  lemma LemmaHeaderPlacesLoops(f0: bytes, loops: int)
    requires Framed(f0) && HasGlobalTable(f0)
    ensures Placed(Header(f0, loops), GIF89A + f0[6..TableEnd(f0)], LoopExtension(loops))
  {
    var h := Header(f0, loops);
    var e := TableEnd(f0);
    assert h == h[..6] + h[6..e] + h[e..];
    LemmaPlacedHead(GIF89A + f0[6..e], LoopExtension(loops), []);
    assert GIF89A + f0[6..e] + LoopExtension(loops) + [] == h;
  }

  /** The loop field of the extension holds the count's low 16 bits, and 0
      for any negative count. */
  lemma LemmaLoopField(loops: int)
    ensures var x := LoopExtension(ClampLoops(loops));
            Unword(x[16..18]) == if loops < 0 then 0 else loops % 65536
  {
  }
}
