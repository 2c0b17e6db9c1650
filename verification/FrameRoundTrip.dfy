/**
 Whole frames: any sequence of encoder calls, followed by any sequence of decoder calls, gives back
 the input.
*/
module FrameRoundTrip {
  import opened Bytes
  import opened Numbers
  import opened FrameFormat
  import opened FrameEncoder
  import opened FrameHistory
  import FrameDecoder

  /** A call between LZ4F_compressBegin and LZ4F_compressEnd. */
  datatype Call = Update(src: seq<byte>, stableSrc: bool) | Flush

  /** All the input a list of calls hands over. */
  function Input(calls: seq<Call>): seq<byte> {
    if calls == [] then [] else
      Input(calls[..|calls| - 1]) + match calls[|calls| - 1] case Update(src, _) => src case Flush => []
  }

  /** The sources are of a size that memory can hold. */
  const ADDRESS_SPACE := 0x8000_0000_0000

  lemma FewBlocks(n: nat, p: Preferences)
    requires ValidPrefs(p) && n < ADDRESS_SPACE + BlockSize(InfoOf(p).blockSizeID)
    ensures n / BlockSize(InfoOf(p).blockSizeID) < U32
  {
    var id := InfoOf(p).blockSizeID;
    if id == 4 {
      assert n / 0x1_0000 < U32;
    } else if id == 5 {
      assert n / 0x4_0000 < U32;
    } else if id == 6 {
      assert n / 0x10_0000 < U32;
    } else {
      assert n / 0x40_0000 < U32;
    }
  }

  /** One call: what it writes is kept. A source that is not announced as stable is overwritten. */
  method Perform(e: Encoder, c: Call) returns (written: seq<byte>)
    requires e.Valid() && (c.Update? ==> |c.src| < ADDRESS_SPACE)
    modifies e
    ensures e.Valid() && e.prefs == old(e.prefs)
    ensures e.input == old(e.input) + (match c case Update(src, _) => src case Flush => [])
    ensures e.emitted == old(e.emitted) + written
    ensures fresh(e.Memory() - old(e.Memory()))
  {
    hide Encoder.Valid;
    match c
    case Update(bytes, stableSrc) => written := PerformUpdate(e, bytes, stableSrc);
    case Flush => written := PerformFlush(e);
  }

  method PerformFlush(e: Encoder) returns (written: seq<byte>)
    requires e.Valid()
    modifies e
    ensures e.Valid() && e.prefs == old(e.prefs) && e.input == old(e.input) && e.emitted == old(e.emitted) + written
    ensures fresh(e.Memory() - old(e.Memory()))
  {
    hide Ends, ValidBlocks, Content, Joined, Header, Compresses, BlockSize;
    var dst := new byte[e.tmpInSize + BH_SIZE + BF_SIZE];
    var r := e.Flush(dst, 0, dst.Length);
    written := dst[..r.size];
  }

  method PerformUpdate(e: Encoder, bytes: seq<byte>, stableSrc: bool) returns (written: seq<byte>)
    requires e.Valid() && |bytes| < ADDRESS_SPACE
    modifies e
    ensures e.Valid() && e.prefs == old(e.prefs) && e.input == old(e.input) + bytes
            && e.emitted == old(e.emitted) + written
    ensures fresh(e.Memory() - old(e.Memory()))
  {
    hide Ends, ValidBlocks, Content, Joined, Header, Compresses, BlockSize;
    var src := NewArray(bytes);
    written := UpdateFrom(e, src, stableSrc);
    if !stableSrc { Clear(src); }
  }

  method UpdateFrom(e: Encoder, src: array<byte>, stableSrc: bool) returns (written: seq<byte>)
    requires e.Valid() && src.Length < ADDRESS_SPACE
    modifies e
    ensures e.Valid() && e.prefs == old(e.prefs) && e.input == old(e.input) + src[..]
            && e.emitted == old(e.emitted) + written
    ensures e.dict.Src? ==> e.dict == old(e.dict) || (stableSrc && e.dict.buffer == src)
  {
    hide Ends, ValidBlocks, Content, Joined, Header, Compresses, CompressBoundInternal, BlockSize, Overhead, FrameEnd;
    e.ValidBounds();
    FewBlocks(src.Length + e.tmpInSize, e.prefs);
    var capacity := CompressBoundInternal(src.Length, e.prefs, e.tmpInSize);
    var dst := new byte[capacity];
    var r := e.CompressUpdate(src, 0, src.Length, dst, 0, capacity, stableSrc);
    written := dst[..r.size];
  }

  method Begin(e: Encoder, p: Preferences) returns (written: seq<byte>)
    requires e.Usable() && ValidPrefs(p) && Compresses(e.codec)
    modifies e
    ensures e.Valid() && e.prefs == p.(blockSizeID := InfoOf(p).blockSizeID) && e.input == [] && e.emitted == written
            && e.Memory() == {}
  {
    hide Ends, ValidBlocks, Content, Joined, Header, BlockSize, Compresses;
    var dst := new byte[MAX_FH_SIZE];
    var r := e.CompressBegin(p, dst, 0, MAX_FH_SIZE);
    written := dst[..r.size];
  }

  /** The end is asked for with the room LZ4F_compressBound names, so it cannot fail for lack of it. */
  method End(e: Encoder) returns (r: Option<seq<byte>>)
    requires e.Valid()
    modifies e
    ensures e.Usable() && e.prefs == old(e.prefs) && e.input == old(e.input) && e.FrameOfInput()
    ensures r.None? <==> e.prefs.contentSize > 0 && e.prefs.contentSize != |e.input| % U64
    ensures r.Some? ==> e.emitted == old(e.emitted) + r.value
  {
    hide Ends, ValidBlocks, Content, Joined, Header, BlockSize, Compresses, CompressBound, FrameEnd, Overhead,
      Encoder.FrameOfInput;
    var capacity := CompressBound(0, e.prefs);
    var dst := new byte[capacity];
    var end := e.CompressEnd(dst, 0, capacity);
    if end.Failed? { return None; }
    r := Some(dst[..end.size]);
  }

  lemma NoInputYet(calls: seq<Call>)
    ensures Input(calls[..0]) == []
  {
  }

  lemma InputSoFar(calls: seq<Call>, i: nat)
    requires i < |calls|
    ensures Input(calls[..i + 1]) == Input(calls[..i]) + match calls[i] case Update(src, _) => src case Flush => []
  {
    assert calls[..i + 1][..i] == calls[..i];
  }

  /** A frame encoded with any list of calls on a context in any state between frames. It fails
      only when the announced size is wrong. */
  method EncodeFrame(e: Encoder, p: Preferences, calls: seq<Call>) returns (r: Option<seq<byte>>, ghost f: Frame)
    requires e.Usable() && ValidPrefs(p) && Compresses(e.codec) && |Input(calls)| < U64
    requires forall i :: 0 <= i < |calls| && calls[i].Update? ==> |calls[i].src| < ADDRESS_SPACE
    modifies e
    ensures e.Usable() && (r.None? <==> p.contentSize > 0 && p.contentSize != |Input(calls)|)
    ensures r.Some? ==> ValidFrame(e.codec, f) && r.value == FrameBytes(f) && FrameContent(f) == Input(calls)
  {
    hide Encoder.Valid, Encoder.FrameOfInput, ValidFrame, FrameBytes, Content, Compresses, Input, BlockSize;
    var encoded := Begin(e, p);
    NoInputYet(calls);
    var i := 0;
    while i < |calls|
      invariant 0 <= i <= |calls| && e.Valid() && e.prefs == p.(blockSizeID := InfoOf(p).blockSizeID)
      invariant e.input == Input(calls[..i]) && e.emitted == encoded && fresh(e.Memory() - old(e.Memory()))
    {
      InputSoFar(calls, i);
      var written := Perform(e, calls[i]);
      encoded := encoded + written;
      i := i + 1;
    }
    assert calls[..i] == calls;
    var end := End(e);
    f := Data(InfoOf(e.prefs), e.blocks);
    if end.None? { return None, f; }
    e.FrameIsValid();
    r := Some(encoded + end.value);
  }

  // ---------------------------------------------------------------- LZ4F_compressFrame_usingCDict

  /** The smallest block size that holds all of the source, if it is not above the requested one. */
  predicate IsOptimal(id: nat, requested: nat, srcSize: nat) {
    if requested <= 4 then id == requested
    else && 4 <= id <= requested <= 7 && (srcSize <= BlockSize(id) || id == requested)
         && forall smaller :: 4 <= smaller < id ==> srcSize > BlockSize(smaller)
  }

  /** LZ4F_optimalBSID. */
  method OptimalBSID(requestedBSID: nat, srcSize: nat) returns (id: nat)
    requires requestedBSID == 0 || 4 <= requestedBSID <= 7
    ensures IsOptimal(id, requestedBSID, srcSize)
  {
    var proposedBSID, maxBlockSize := 4, KB64;
    while requestedBSID > proposedBSID
      invariant 4 <= proposedBSID <= 7 && maxBlockSize == BlockSize(proposedBSID)
                && proposedBSID <= Max(4, requestedBSID)
      invariant forall smaller :: 4 <= smaller < proposedBSID ==> srcSize > BlockSize(smaller)
    {
      if srcSize <= maxBlockSize { return proposedBSID; }
      proposedBSID := proposedBSID + 1;
      maxBlockSize := maxBlockSize * 4;
    }
    id := requestedBSID;
  }

  /** The preferences the frame is made with: one call flushes all, an announced size is corrected,
      and a single block is not linked. */
  function Adapt(p: Preferences, id: nat, srcSize: nat): Preferences
    requires id == 0 || 4 <= id <= 7
  {
    p.(blockSizeID := id, autoFlush := true, contentSize := if p.contentSize > 0 then srcSize else 0,
       linked := p.linked && srcSize > BlockSize(if id == 0 then LZ4F_BLOCKSIZEID_DEFAULT else id))
  }

  predicate Adapted(q: Preferences, p: Preferences, srcSize: nat) {
    ValidPrefs(q) && IsOptimal(q.blockSizeID, p.blockSizeID, srcSize) && q == Adapt(p, q.blockSizeID, srcSize)
  }

  lemma SameBound(srcSize: nat, q: Preferences, e: Preferences)
    requires ValidPrefs(q) && e == q.(blockSizeID := InfoOf(q).blockSizeID)
    ensures CompressBoundInternal(srcSize, e, 0) == CompressBoundInternal(srcSize, q, 0)
  {
    hide BlockSize;
  }

  /** The end of a frame that has been flushed and whose size is right. */
  method EndFrame(e: Encoder, dst: array<byte>, dstPtr: nat, dstCapacity: nat, ghost dst0: seq<byte>)
    returns (r: Result)
    requires e.Valid() && e.tmpInSize == 0 && dst !in e.Memory() && |e.input| < U64
    requires e.prefs.contentSize > 0 ==> e.prefs.contentSize == |e.input|
    requires SentTo([], dst0, 0, dstPtr, e.emitted, dst[..]) && dstPtr + FrameEnd(e.prefs) <= dstCapacity <= dst.Length
    modifies e, dst
    ensures e.Usable() && e.cStage == 0 && e.FrameOfInput() && e.input == old(e.input) && e.prefs == old(e.prefs)
    ensures r.Written? && r.size <= dstCapacity && e.emitted == dst[..r.size]
  {
    hide Encoder.Valid, Encoder.FrameOfInput, FrameEnd, CompressBound, SentTo;
    ghost var emitted1, dst1 := e.emitted, dst[..];
    e.ValidBounds();
    r := e.CompressEnd(dst, dstPtr, dstCapacity - dstPtr);
    SentOn([], dst0, 0, dstPtr, dstPtr + r.size, emitted1, dst1, e.emitted, dst[..]);
    SentAll(dst0, dstPtr + r.size, e.emitted, dst[..]);
    r := Written(dstPtr + r.size);
  }

  lemma SentAll(dst0: seq<byte>, to: nat, out: seq<byte>, dst: seq<byte>)
    requires SentTo([], dst0, 0, to, out, dst)
    ensures to <= |dst| && out == dst[..to]
  {
  }

  /** All of the source, behind the header. */
  method CompressBody(e: Encoder, src: array<byte>, start: nat, srcSize: nat, dst: array<byte>, dstPtr: nat,
      dstCapacity: nat, ghost dst0: seq<byte>)
    returns (r: Result)
    requires e.Valid() && e.tmpInSize == 0 && e.input == [] && dst !in e.Memory() && srcSize < ADDRESS_SPACE
             && e.prefs.autoFlush
    requires start + srcSize <= src.Length && dst != src
             && (e.prefs.contentSize > 0 ==> e.prefs.contentSize == srcSize) && ValidPrefs(e.prefs)
    requires SentTo([], dst0, 0, dstPtr, e.emitted, dst[..])
             && dstPtr + CompressBoundInternal(srcSize, e.prefs, 0) <= dstCapacity <= dst.Length
    modifies e, dst
    ensures e.Usable() && e.cStage == 0 && e.FrameOfInput() && e.input == src[start..start + srcSize]
            && e.prefs == old(e.prefs)
    ensures r.Written? && r.size <= dstCapacity && e.emitted == dst[..r.size]
  {
    hide Encoder.Valid, Encoder.FrameOfInput, CompressBoundInternal, FrameEnd, SentTo, BlockSize;
    ghost var emitted1, dst1 := e.emitted, dst[..];
    e.ValidBounds();
    FewBlocks(srcSize, e.prefs);
    var body := e.CompressUpdate(src, start, srcSize, dst, dstPtr, dstCapacity - dstPtr, true);
    SentOn([], dst0, 0, dstPtr, dstPtr + body.size, emitted1, dst1, e.emitted, dst[..]);
    e.ValidBounds();
    r := EndFrame(e, dst, dstPtr + body.size, dstCapacity, dst0);
  }

  /** All of a source in one call: with the room LZ4F_compressFrameBound asks for it always works. */
  method CompressFrame(e: Encoder, p: Preferences, src: array<byte>, start: nat, srcSize: nat, dst: array<byte>,
      dstCapacity: nat)
    returns (r: Result, ghost q: Preferences)
    requires e.Usable() && ValidPrefs(p) && Compresses(e.codec) && srcSize < ADDRESS_SPACE
    requires start + srcSize <= src.Length && dstCapacity <= dst.Length && dst != src
    modifies e, dst
    ensures Adapted(q, p, srcSize)
    ensures r == Failed(dstMaxSize_tooSmall) <==> dstCapacity < MAX_FH_SIZE + CompressBoundInternal(srcSize, q, 0)
    ensures r.Failed? ==> r.error == dstMaxSize_tooSmall
    ensures r.Written? ==>
      e.Usable() && e.cStage == 0 && e.FrameOfInput() && e.input == src[start..start + srcSize] && r.size <= dstCapacity
    ensures r.Written? ==> e.emitted == dst[..r.size] && InfoOf(e.prefs) == InfoOf(q)
  {
    hide Ends, ValidBlocks, Content, Joined, Header, Compresses, CompressBoundInternal, IsOptimal, SentTo, BlockSize;
    var id := OptimalBSID(p.blockSizeID, srcSize);
    var prefs := Adapt(p, id, srcSize);
    q := prefs;
    if dstCapacity < MAX_FH_SIZE + CompressBoundInternal(srcSize, prefs, 0) { return Failed(dstMaxSize_tooSmall), q; }
    var header := e.CompressBegin(prefs, dst, 0, dstCapacity);
    SameBound(srcSize, prefs, e.prefs);
    r := CompressBody(e, src, start, srcSize, dst, header.size, dstCapacity, old(dst[..]));
  }

  /** Encoded and decoded in pieces of any size, the input comes back, and both contexts are ready
      for the next frame. */
  method RoundTrip(e: Encoder, d: FrameDecoder.Decoder, p: Preferences, calls: seq<Call>,
                   dst: array<byte>, decoderCalls: nat -> FrameDecoder.Call, ghost wait: nat -> nat)
    returns (decoded: Option<seq<byte>>)
    requires e.Usable() && d.AtRest() && e.codec == d.codec && Compresses(e.codec) && Decodes(e.codec)
             && ValidPrefs(p) && |Input(calls)| < U64
    requires forall i :: 0 <= i < |calls| && calls[i].Update? ==> |calls[i].src| < ADDRESS_SPACE
    requires FrameDecoder.Fit(decoderCalls, dst.Length) && FrameDecoder.GoOn(decoderCalls, wait)
    requires dst !in e.Memory()
    modifies e, d, d.history, dst
    ensures decoded == if p.contentSize > 0 && p.contentSize != |Input(calls)| then None else Some(Input(calls))
    ensures d.AtRest()
  {
    hide Encoder.Valid, Encoder.Usable, FrameBytes, Content, ValidFrame, Compresses, Decodes, Input,
      FrameDecoder.Decoder.Clean;
    var encoded, f := EncodeFrame(e, p, calls);
    if encoded.None? { return None; }
    var produced, end := FrameDecoder.DecodeFrame(d, f, encoded.value, 0, dst, decoderCalls, wait);
    decoded := Some(produced);
  }

  method NewArray(p: seq<byte>) returns (a: array<byte>)
    ensures fresh(a) && a[..] == p
  {
    a := new byte[|p|](i requires 0 <= i < |p| => p[i]);
  }

  method Clear(a: array<byte>)
    modifies a
  {
    forall i | 0 <= i < a.Length { a[i] := 0; }
  }
}
