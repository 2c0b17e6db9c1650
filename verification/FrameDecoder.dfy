/**
 LZ4F_decompress: the resumable decoder, fed and emptied in pieces of any size.
*/
module FrameDecoder {
  import opened Bytes
  import opened Numbers
  import opened FrameFormat
  import opened FrameHeader
  import opened FrameHistory
  import opened FramePosition
  import opened DecoderHistory
  import Xxh32

  datatype Stage =
    | getFrameHeader | storeFrameHeader | init
    | getBlockHeader | storeBlockHeader | copyDirect | getBlockChecksum | getCBlock | storeCBlock | flushOut
    | getSuffix | storeSuffix
    | getSFrameSize | storeSFrameSize | skipSkippable

  /** Whether the state machine goes on, or stops with a hint for the next call. */
  datatype Outcome = Again | Stop(hint: nat)

  /** As far as both go, the input from `srcPtr` on is what is left of the frame. */
  predicate Agrees(src: seq<byte>, srcPtr: nat, rest: seq<byte>) {
    srcPtr <= |src| && var n := Min(|src| - srcPtr, |rest|); src[srcPtr..srcPtr + n] == rest[..n]
  }

  lemma Taken(src: seq<byte>, srcPtr: nat, rest: seq<byte>, n: nat)
    requires Agrees(src, srcPtr, rest) && n <= |rest| && srcPtr + n <= |src|
    ensures src[srcPtr..srcPtr + n] == rest[..n] && Agrees(src, srcPtr + n, rest[n..])
  {
    var m := Min(|src| - srcPtr, |rest|);
    assert src[srcPtr..srcPtr + n] == src[srcPtr..srcPtr + m][..n];
    assert src[srcPtr + n..srcPtr + m] == src[srcPtr..srcPtr + m][n..] == rest[n..][..m - n];
  }

  /** The input from `from` to `to` was the next part of the frame. */
  predicate FedTo(before: seq<byte>, src: seq<byte>, from: nat, to: nat, now: seq<byte>) {
    from <= to <= |src| && to - from <= |before| && now == before[to - from..] && Agrees(src, to, now)
  }

  lemma FedBounds(before: seq<byte>, src: seq<byte>, from: nat, to: nat, now: seq<byte>)
    requires FedTo(before, src, from, to, now)
    ensures from <= to <= |src| && |now| == |before| - (to - from) && Agrees(src, to, now)
  {
    hide Agrees;
  }

  lemma FedOn(first: seq<byte>, src: seq<byte>, a: nat, b: nat, c: nat, before: seq<byte>, now: seq<byte>)
    requires FedTo(first, src, a, b, before) && FedTo(before, src, b, c, now)
    ensures FedTo(first, src, a, c, now)
  {
    hide Agrees;
  }

  lemma InputBounds(src: seq<byte>, srcPtr: nat, rest: seq<byte>)
    requires Agrees(src, srcPtr, rest)
    ensures srcPtr <= |src| && rest[0..] == rest
  {
  }

  /** The sizes the two buffers can have been allocated with. */
  predicate Allocated(tmpInLength: nat, maxBufferSize: nat) {
    maxBufferSize == 0 || AllocatedFor(4, tmpInLength, maxBufferSize) || AllocatedFor(5, tmpInLength, maxBufferSize)
    || AllocatedFor(6, tmpInLength, maxBufferSize) || AllocatedFor(7, tmpInLength, maxBufferSize)
  }

  predicate AllocatedFor(id: nat, tmpInLength: nat, maxBufferSize: nat)
    requires 4 <= id <= 7
  {
    tmpInLength == BlockSize(id) + BF_SIZE && (maxBufferSize == BlockSize(id) || maxBufferSize == BlockSize(id) + KB128)
  }

  /** Buffers that are large enough for decoded output are large enough for input too. */
  lemma LargeEnough(id: nat, linked: bool, tmpInLength: nat, maxBufferSize: nat)
    requires 4 <= id <= 7 && Allocated(tmpInLength, maxBufferSize)
    requires BlockSize(id) + (if linked then KB128 else 0) <= maxBufferSize
    ensures BlockSize(id) + BF_SIZE <= tmpInLength
  {
  }

  lemma NewlyAllocated(id: nat, linked: bool)
    requires 4 <= id <= 7
    ensures Allocated(BlockSize(id) + BF_SIZE, BlockSize(id) + if linked then KB128 else 0)
  {
  }

  predicate Sized(info: FrameInfo) {
    info.contentSize.Some? && info.contentSize.value > 0
  }

  lemma NothingYet(rest: seq<byte>, src: seq<byte>, out: seq<byte>, dst: seq<byte>, from: nat)
    requires Agrees(src, 0, rest) && from <= |dst|
    ensures FedTo(rest, src, 0, 0, rest) && SentTo(out, dst, from, from, out, dst)
  {
  }


  /** What waits, split into what goes out now and what does not. */
  lemma FlushPieces(buffer: seq<byte>, at: nat, size: nat, start: nat, n: nat, out: seq<byte>)
    requires at + size <= |buffer| && start + n <= size
    ensures var content, x := buffer[at..at + size], buffer[at + start..at + start + n];
      && content[start..start + n] == x && content[start..] == buffer[at + start..at + size]
      && out + buffer[at + start..at + size] == (out + x) + buffer[at + start + n..at + size]
      && (start + n == size ==> out + buffer[at + start..at + size] == out + x)
  {
    SliceOfSlice(buffer, at, at + size, start, start + n);
    SliceOfSlice(buffer, at, at + size, start, size);
    SlicesJoin(buffer, at + start, at + start + n, at + size);
    assert buffer[at..at + size][start..] == buffer[at..at + size][start..size];
  }

  /** Cutting a long dictionary to 64 KB changes nothing. */
  lemma EnoughHistory(c: Codec, dict: seq<byte>, from: nat, x: seq<byte>, cap: nat)
    requires Decodes(c) && from <= |dict| && (from == 0 || from + KB64 == |dict|)
    ensures c.decode(dict[from..|dict|], x, cap) == c.decode(dict, x, cap)
  {
    var cut := dict[from..|dict|];
    assert from == 0 ==> cut == dict;
    assert c.decode(dict, x, cap) == c.decode(Last(dict, KB64), x, cap);
    assert c.decode(cut, x, cap) == c.decode(Last(cut, KB64), x, cap);
    assert from > 0 ==> Last(dict, KB64) == cut;
  }

  /** The magic number of a data frame. */
  lemma MagicOf(f: Frame)
    requires f.Data? && ValidInfo(f.info)
    ensures |FrameBytes(f)| >= 4 && FrameBytes(f)[..4] == LE(LZ4F_MAGICNUMBER, 4)
  {
    hide FrameBytes, LE, Header;
    FrameStart(f);
    HeaderFields(f.info);
    assert FrameBytes(f)[..4] == FrameBytes(f)[..HeaderSize(f.info)][..4];
  }

  lemma InputStarts(src: seq<byte>, srcPtr: nat, rest: seq<byte>)
    requires Agrees(src, srcPtr, rest)
    ensures StartsWith(src[srcPtr..], rest)
  {
    var n := Min(|src| - srcPtr, |rest|);
    assert src[srcPtr..][..n] == src[srcPtr..srcPtr + n];
  }

  /** LZ4F_dctx. The two hash states are represented by the bytes they have been fed: module Xxh32
      shows that their digest is the hash of those. The ghost fields say which frame is being
      decoded, what is left of its bytes, what has been delivered, and which block is next. */
  class Decoder {
    const codec: Codec
    var dStage: Stage
    var frameInfo: FrameInfo
    var frameRemainingSize: nat
    var header: seq<byte>
    var tmpIn: seq<byte>
    var tmpInSize: nat
    var tmpInTarget: nat
    const history: History
    var xxh: seq<byte>
    var blockChecksum: seq<byte>
    ghost var frame: Frame
    ghost var rest: seq<byte>
    ghost var out: seq<byte>
    ghost var k: nat

    /** LZ4F_createDecompressionContext. */
    constructor (codec: Codec)
      ensures Clean() && fresh(history) && this.codec == codec
    {
      this.codec := codec;
      dStage, frameRemainingSize, tmpInSize, tmpInTarget := getFrameHeader, 0, 0, 0;
      frameInfo := FrameInfo(true, false, false, 4, None, None);
      header, tmpIn, xxh, blockChecksum := seq(MAX_FH_SIZE, _ => 0), [], [], [];
      history := new History();
      frame, rest, out, k := Skippable(0, []), [], [], 0;
    }

    // ------------------------------------------------------------- what holds where

    /** Between frames: no history, and buffers of any sizes earlier frames needed. */
    ghost predicate Clean()
      reads this`header, this`tmpIn, this`frameRemainingSize, history
    {
      && |header| == MAX_FH_SIZE && history.InBounds() && history.dict == Nowhere
      && Allocated(|tmpIn|, history.maxBufferSize) && frameRemainingSize == 0
    }

    /** Inside a frame: buffers as large as its blocks require. */
    ghost predicate Sizes()
      reads this`frame, this`frameInfo, this`header, this`tmpIn, history
    {
      && frame.Data? && frameInfo == frame.info && 4 <= frameInfo.blockSizeID <= 7 && Decodes(codec)
      && |header| == MAX_FH_SIZE && Allocated(|tmpIn|, history.maxBufferSize)
      && history.InBounds() && history.maxBlockSize == BlockSize(frameInfo.blockSizeID)
         && history.maxBlockSize + BF_SIZE <= |tmpIn|
      && (if frameInfo.linked then history.maxBlockSize + KB128 <= history.maxBufferSize
          else history.maxBlockSize <= history.maxBufferSize && history.dict == Nowhere && history.tmpOut == 0)
    }

    /** Checksum and size of what has been decoded so far. */
    ghost predicate Counters(decoded: seq<byte>)
      reads this`frameInfo, this`xxh, this`frameRemainingSize
    {
      && (frameInfo.contentChecksum ==> xxh == decoded)
      && frameRemainingSize == if Sized(frameInfo) then frameInfo.contentSize.value - |decoded| else 0
    }

    /** No decoded block waits; in linked mode the dictionary is the end of the output. */
    ghost predicate Ready()
      reads this`frame, this`frameInfo, this`header, this`tmpIn, this`out, this`xxh, this`frameRemainingSize, history,
          history.Memory()
    {
      Sizes() && Counters(out) && (frameInfo.linked ==> history.Idle(out))
    }

    ghost predicate AtFrameHeader()
      reads this, history, history.Memory()
    {
      dStage == getFrameHeader && Clean() && Decodes(codec) && StartAt(codec, frame, [], rest) && out == [] && k == 0
    }

    ghost predicate AtStoreFrameHeader()
      reads this, history, history.Memory()
    {
      && dStage == storeFrameHeader && Clean() && Decodes(codec) && out == [] && k == 0
      && tmpInSize < tmpInTarget <= MAX_FH_SIZE && StartAt(codec, frame, header[..tmpInSize], rest)
      && (tmpInTarget == MIN_FH_SIZE || (frame.Data? && tmpInTarget == HeaderSize(frame.info)))
    }

    /** The header has been read. */
    ghost predicate AtInit()
      reads this, history, history.Memory()
    {
      && dStage == init && |header| == MAX_FH_SIZE && Decodes(codec) && HeaderAt(codec, frame, 0, [], rest, out)
      && k == 0 && out == [] && frameInfo == frame.info && 4 <= frameInfo.blockSizeID <= 7
      && history.InBounds() && history.dict == Nowhere && Allocated(|tmpIn|, history.maxBufferSize)
      && history.maxBlockSize == BlockSize(frameInfo.blockSizeID)
      && frameRemainingSize == if Sized(frameInfo) then frameInfo.contentSize.value else 0
    }

    ghost predicate AtBlockHeader()
      reads this, history, history.Memory()
    {
      dStage == getBlockHeader && Ready() && HeaderAt(codec, frame, k, [], rest, out)
    }

    ghost predicate AtStoreBlockHeader()
      reads this, history, history.Memory()
    {
      dStage == storeBlockHeader && Ready() && tmpInSize < BH_SIZE <= |tmpIn|
          && HeaderAt(codec, frame, k, tmpIn[..tmpInSize], rest, out)
    }

    ghost predicate AtCopyDirect()
      reads this, history, history.Memory()
    {
      dStage == copyDirect && Ready() && CopyAt(codec, frame, k, tmpInTarget, blockChecksum, rest, out)
    }

    ghost predicate AtBlockChecksum()
      reads this, history, history.Memory()
    {
      dStage == getBlockChecksum && Ready() && tmpInSize < 4 <= |header|
          && CrcAt(codec, frame, k, header[..tmpInSize], blockChecksum, rest, out)
    }

    ghost predicate AtCBlock()
      reads this, history, history.Memory()
    {
      dStage == getCBlock && Ready() && tmpInTarget <= |tmpIn| && DataAt(codec, frame, k, tmpInTarget, [], rest, out)
    }

    ghost predicate AtStoreCBlock()
      reads this, history, history.Memory()
    {
      && dStage == storeCBlock && Ready() && tmpInSize <= tmpInTarget <= |tmpIn|
      && DataAt(codec, frame, k, tmpInTarget, tmpIn[..tmpInSize], rest, out)
    }

    /** A decoded block waits in the context's own buffer. */
    ghost predicate AtFlushOut()
      reads this, history, history.Memory()
    {
      var h := history;
      && dStage == flushOut && Sizes() && h.tmpOutStart <= h.tmpOutSize && h.tmpOut + h.tmpOutSize <= |h.tmpOutBuffer|
      && Counters(out + h.tmpOutBuffer[h.tmpOut + h.tmpOutStart..h.tmpOut + h.tmpOutSize])
      && WaitAt(codec, frame, k, h.tmpOutBuffer[h.tmpOut..h.tmpOut + h.tmpOutSize], h.tmpOutStart, rest, out)
      && (frameInfo.linked ==> h.Flushing(out, h.tmpOutStart))
    }

    ghost predicate AtSuffix()
      reads this, history, history.Memory()
    {
      dStage == getSuffix && Sizes() && Counters(out) && SuffixAt(codec, frame, k, [], rest, out)
    }

    ghost predicate AtStoreSuffix()
      reads this, history, history.Memory()
    {
      && dStage == storeSuffix && Sizes() && Counters(out) && frameInfo.contentChecksum && tmpInSize < 4 <= |tmpIn|
      && SuffixAt(codec, frame, k, tmpIn[..tmpInSize], rest, out)
    }

    ghost predicate AtSFrameSize()
      reads this, history, history.Memory()
    {
      dStage == getSFrameSize && Clean() && out == [] && SizeAt(frame, [], rest)
    }

    ghost predicate AtStoreSFrameSize()
      reads this, history, history.Memory()
    {
      dStage == storeSFrameSize && Clean() && out == [] && tmpInTarget == 8 && 4 <= tmpInSize < 8
          && SizeAt(frame, header[4..tmpInSize], rest)
    }

    ghost predicate AtSkip()
      reads this, history, history.Memory()
    {
      dStage == skipSkippable && Clean() && out == [] && frame.Skippable? && |rest| == tmpInTarget
    }

    /** Anywhere inside a frame. */
    ghost predicate Inside()
      reads this, history, history.Memory()
    {
      match dStage
      case getFrameHeader => AtFrameHeader()
      case storeFrameHeader => AtStoreFrameHeader()
      case init => AtInit()
      case getBlockHeader => AtBlockHeader()
      case storeBlockHeader => AtStoreBlockHeader()
      case copyDirect => AtCopyDirect()
      case getBlockChecksum => AtBlockChecksum()
      case getCBlock => AtCBlock()
      case storeCBlock => AtStoreCBlock()
      case flushOut => AtFlushOut()
      case getSuffix => AtSuffix()
      case storeSuffix => AtStoreSuffix()
      case getSFrameSize => AtSFrameSize()
      case storeSFrameSize => AtStoreSFrameSize()
      case skipSkippable => AtSkip()
    }

    /** A call may end here only if there is more of the frame to come. */
    predicate Paused()
      reads this`dStage, this`tmpInTarget
    {
      dStage != init && dStage != getSuffix && (dStage == skipSkippable ==> tmpInTarget > 0)
    }

    lemma MoreToCome()
      requires Inside() && Paused()
      ensures rest != []
    {
      hide Counters, History.Flushing, Hist, Allocated, BlockSize, StartAt, HeaderAt, CopyAt, CrcAt, DataAt, WaitAt,
        SuffixAt, SizeAt;
      match dStage
      case getFrameHeader => StartBounds(codec, frame, [], rest);
      case storeFrameHeader => StartBounds(codec, frame, header[..tmpInSize], rest);
      case getBlockHeader => HeaderCollects(codec, frame, k, [], rest, out, 1);
      case storeBlockHeader => HeaderCollects(codec, frame, k, tmpIn[..tmpInSize], rest, out, 1);
      case copyDirect =>
        CopyBounds(codec, frame, k, tmpInTarget, blockChecksum, rest, out);
        CopyNext(codec, frame, k, tmpInTarget, blockChecksum, rest, out, tmpInTarget);
      case getBlockChecksum => CrcCollects(codec, frame, k, header[..tmpInSize], blockChecksum, rest, out, 1);
      case getCBlock => DataLeft(codec, frame, k, tmpInTarget, [], rest, out);
      case storeCBlock => DataLeft(codec, frame, k, tmpInTarget, tmpIn[..tmpInSize], rest, out);
      case flushOut => WaitLeft(codec, frame, k,
          history.tmpOutBuffer[history.tmpOut..history.tmpOut + history.tmpOutSize], history.tmpOutStart, rest, out);
      case storeSuffix => SuffixCollects(codec, frame, k, tmpIn[..tmpInSize], rest, out, 1);
      case getSFrameSize => SizeCollects(frame, [], rest, 1);
      case storeSFrameSize => SizeCollects(frame, header[4..tmpInSize], rest, 1);
      case skipSkippable =>
    }

    lemma Locate()
      requires Inside()
      ensures dStage == getFrameHeader ==> AtFrameHeader()
      ensures dStage == storeFrameHeader ==> AtStoreFrameHeader()
      ensures dStage == init ==> AtInit()
      ensures dStage == getBlockHeader ==> AtBlockHeader()
      ensures dStage == storeBlockHeader ==> AtStoreBlockHeader()
      ensures dStage == copyDirect ==> AtCopyDirect()
      ensures dStage == getBlockChecksum ==> AtBlockChecksum()
      ensures dStage == getCBlock ==> AtCBlock()
      ensures dStage == storeCBlock ==> AtStoreCBlock()
      ensures dStage == flushOut ==> AtFlushOut()
      ensures dStage == getSuffix ==> AtSuffix()
      ensures dStage == storeSuffix ==> AtStoreSuffix()
      ensures dStage == getSFrameSize ==> AtSFrameSize()
      ensures dStage == storeSFrameSize ==> AtStoreSFrameSize()
      ensures dStage == skipSkippable ==> AtSkip()
    {
      hide AtFrameHeader, AtStoreFrameHeader, AtInit, AtBlockHeader, AtStoreBlockHeader, AtCopyDirect, AtBlockChecksum,
        AtCBlock,
        AtStoreCBlock, AtFlushOut, AtSuffix, AtStoreSuffix, AtSFrameSize, AtStoreSFrameSize, AtSkip;
    }

    /** The frame is complete, and the context ready for the next one. */
    ghost predicate Finished()
      reads this, history, history.Memory()
    {
      dStage == getFrameHeader && Clean() && rest == [] && out == FrameContent(frame)
    }

    // ------------------------------------------------------------- what a stage changes

    /** The next bytes of the frame have been consumed, up to `next`. */
    twostate predicate Fed(new src: seq<byte>, srcPtr: nat, next: nat)
      reads this`rest, this`frame
    {
      FedTo(old(rest), src, srcPtr, next, rest) && frame == old(frame)
    }

    /** `x` went out behind what had gone out before. */
    twostate predicate Sent(dst: array<byte>, dstStart: nat, dstPtr: nat, new x: seq<byte>)
      reads this`out, history`dict, history`dictSize, dst
    {
      && out == old(out) + x && dstPtr + |x| <= dst.Length
      && dst[dstPtr..dstPtr + |x|] == x && dst[..dstPtr] == old(dst[..dstPtr])
      && history.EndsIn(out, dst, dstStart, dstPtr + |x|) && history.Clear(dst, dstPtr + |x|)
    }

    /** Nothing that matters between blocks has changed. */
    twostate lemma Kept()
      requires old(Ready())
      requires frame == old(frame) && frameInfo == old(frameInfo) && out == old(out)
      requires frameRemainingSize == old(frameRemainingSize) && xxh == old(xxh)
      requires |tmpIn| == |old(tmpIn)| && |header| == |old(header)|
      requires unchanged(history) && unchanged(history.Memory())
      ensures Ready()
    {
      hide Hist, Allocated, BlockSize, Sized;
    }

    lemma ReadyBounds()
      requires Ready()
      ensures frame.Data? && frameInfo == frame.info && 4 <= frameInfo.blockSizeID <= 7 && Decodes(codec)
              && |header| == MAX_FH_SIZE
      ensures history.maxBlockSize == BlockSize(frameInfo.blockSizeID) && history.maxBlockSize + BF_SIZE <= |tmpIn|
      ensures Sizes() && Counters(out)
    {
    }

    // ------------------------------------------------------------- block headers

    /** The next `n` bytes of the input. */
    method Take(src: seq<byte>, srcPtr: nat, n: nat) returns (x: seq<byte>)
      requires Agrees(src, srcPtr, rest) && n <= |rest| && srcPtr + n <= |src|
      modifies this`rest
      ensures x == old(rest)[..n] && rest == old(rest)[n..] && Fed(src, srcPtr, srcPtr + n)
    {
      Taken(src, srcPtr, rest, n);
      x := src[srcPtr..srcPtr + n];
      rest := rest[n..];
    }

    /** The next `n` bytes of the input, added to what `header` has collected. */
    method StoreHeader(src: seq<byte>, srcPtr: nat, n: nat) returns (next: nat)
      requires Agrees(src, srcPtr, rest) && n <= |rest| && srcPtr + n <= |src| && tmpInSize + n <= |header|
      modifies this`rest, this`header, this`tmpInSize
      ensures next == srcPtr + n && tmpInSize == old(tmpInSize) + n && |header| == old(|header|)
      ensures header[..tmpInSize] == old(header[..tmpInSize]) + old(rest)[..n]
      ensures rest == old(rest)[n..] && Fed(src, srcPtr, next)
    {
      hide Agrees, Overwrite;
      var x := Take(src, srcPtr, n);
      OverwriteParts(header, tmpInSize, x);
      header := Overwrite(header, tmpInSize, x);
      tmpInSize := tmpInSize + n;
      next := srcPtr + n;
    }

    /** The same for `tmpIn`. */
    method StoreTmpIn(src: seq<byte>, srcPtr: nat, n: nat) returns (next: nat)
      requires Agrees(src, srcPtr, rest) && n <= |rest| && srcPtr + n <= |src| && tmpInSize + n <= |tmpIn|
      modifies this`rest, this`tmpIn, this`tmpInSize
      ensures next == srcPtr + n && tmpInSize == old(tmpInSize) + n && |tmpIn| == old(|tmpIn|)
      ensures tmpIn[..tmpInSize] == old(tmpIn[..tmpInSize]) + old(rest)[..n]
      ensures rest == old(rest)[n..] && Fed(src, srcPtr, next)
    {
      hide Agrees, Overwrite;
      var x := Take(src, srcPtr, n);
      OverwriteParts(tmpIn, tmpInSize, x);
      tmpIn := Overwrite(tmpIn, tmpInSize, x);
      tmpInSize := tmpInSize + n;
      next := srcPtr + n;
    }

    /** The block header, wherever it was read from. */
    method DecodeBlockHeader(selectedIn: seq<byte>, dstFull: bool) returns (o: Outcome)
      requires Ready() && |selectedIn| == BH_SIZE && HeaderAt(codec, frame, k, selectedIn, rest, out)
      modifies this`dStage, this`tmpInTarget, this`blockChecksum
      ensures Inside() && (o.Stop? ==> o.hint > 0 && dStage == getCBlock && dstFull)
      ensures dStage == getSuffix || dStage == copyDirect || dStage == getCBlock
    {
      hide Ready, ValidFrame, HeaderAt, CopyAt, DataAt, SuffixAt, ReadLE, Sizes, Counters;
      ReadyBounds();
      HeaderDecodes(codec, frame, k, selectedIn, rest, out);
      var nextCBlockSize := ReadLE(selectedIn) % LZ4F_BLOCKUNCOMPRESSED_FLAG;
      var crcSize := if frameInfo.blockChecksum then BF_SIZE else 0;
      if nextCBlockSize == 0 {
        dStage := getSuffix;
        Kept();
        ReadyBounds();
        return Again;
      }
      assert nextCBlockSize <= history.maxBlockSize;  // or else LZ4F_ERROR_maxBlockSize_invalid
      if ReadLE(selectedIn) >= LZ4F_BLOCKUNCOMPRESSED_FLAG {
        tmpInTarget := nextCBlockSize;
        blockChecksum := [];
        dStage := copyDirect;
        Kept();
        return Again;
      }
      tmpInTarget := nextCBlockSize + crcSize;
      dStage := getCBlock;
      Kept();
      return if dstFull then Stop(BH_SIZE + nextCBlockSize + crcSize) else Again;
    }

    /** dstage_storeBlockHeader. */
    method StoreBlockHeader(src: seq<byte>, srcPtr: nat, dstFull: bool) returns (o: Outcome, next: nat)
      requires AtStoreBlockHeader() && Agrees(src, srcPtr, rest)
      modifies this`rest, this`tmpIn, this`tmpInSize, this`tmpInTarget, this`dStage, this`blockChecksum
      ensures Inside() && Fed(src, srcPtr, next)
      ensures if o == Again then next > srcPtr else o.hint > 0 && Paused() && (next == |src| || dstFull)
    {
      hide Ready, HeaderAt, Agrees;
      ReadyBounds();
      InputBounds(src, srcPtr, rest);
      var sizeToCopy := Min(BH_SIZE - tmpInSize, |src| - srcPtr);
      HeaderCollects(codec, frame, k, tmpIn[..tmpInSize], rest, out, sizeToCopy);
      next := StoreTmpIn(src, srcPtr, sizeToCopy);
      Kept();
      if tmpInSize < BH_SIZE { return Stop(BH_SIZE - tmpInSize), next; }
      o := DecodeBlockHeader(tmpIn[..BH_SIZE], dstFull);
    }

    /** dstage_getBlockHeader. */
    method GetBlockHeader(src: seq<byte>, srcPtr: nat, dstFull: bool) returns (o: Outcome, next: nat)
      requires AtBlockHeader() && Agrees(src, srcPtr, rest)
      modifies this`rest, this`tmpIn, this`tmpInSize, this`tmpInTarget, this`dStage, this`blockChecksum
      ensures Inside() && Fed(src, srcPtr, next)
      ensures if o == Again then next > srcPtr else o.hint > 0 && Paused() && (next == |src| || dstFull)
    {
      hide Ready, HeaderAt, Agrees, Inside;
      ReadyBounds();
      InputBounds(src, srcPtr, rest);
      if |src| - srcPtr >= BH_SIZE {
        HeaderCollects(codec, frame, k, [], rest, out, BH_SIZE);
        var selectedIn := Take(src, srcPtr, BH_SIZE);
        NoneCollected(selectedIn);
        Kept();
        next := srcPtr + BH_SIZE;
        o := DecodeBlockHeader(selectedIn, dstFull);
      } else {
        tmpInSize := 0;
        dStage := storeBlockHeader;
        Kept();
        o, next := StoreBlockHeader(src, srcPtr, dstFull);
      }
    }

    // ------------------------------------------------------------- uncompressed blocks

    /** The counters go on to cover `x` as well. */
    method Count(x: seq<byte>, ghost decoded: seq<byte>)
      requires frame.Data? && frameInfo == frame.info && Counters(decoded) && ValidFrame(codec, frame)
               && decoded + x <= Content(frame.blocks)
      modifies this`frameRemainingSize, this`xxh
      ensures Counters(decoded + x)
    {
      hide Content, ValidBlocks;
      if frameInfo.contentChecksum { xxh := xxh + x; }
      if Sized(frameInfo) { frameRemainingSize := frameRemainingSize - |x|; }
    }

    /** Bytes of the user's data, or a block decoded in place, go out; the history follows. */
    method Deliver(dst: array<byte>, dstStart: nat, dstPtr: nat, x: seq<byte>)
      requires Ready() && ValidFrame(codec, frame) && out + x <= Content(frame.blocks)
      requires history.EndsIn(out, dst, dstStart, dstPtr) && history.Clear(dst, dstPtr) && dstPtr + |x| <= dst.Length
      modifies this`frameRemainingSize, this`xxh, this`out, history`tmpOutBuffer, history`dict, history`dictSize, dst
      ensures Ready() && Sent(dst, dstStart, dstPtr, x)
    {
      hide Content, ValidFrame, Hist, Allocated, BlockSize, Counters, History.EndsIn;
      history.Extend(dst, dstStart, dstPtr, x, out, frameInfo.linked);
      Count(x, out);
      out := out + x;
    }

    /** What is left of the block once `x` is out. */
    method AfterCopy(x: seq<byte>, ghost rest0: seq<byte>, ghost out0: seq<byte>) returns (o: Outcome)
      requires dStage == copyDirect && Ready() && CopyAt(codec, frame, k, tmpInTarget, blockChecksum, rest0, out0)
      requires |x| <= tmpInTarget && |x| <= |rest0| && x == rest0[..|x|] && rest == rest0[|x|..] && out == out0 + x
      modifies this`dStage, this`tmpInTarget, this`tmpInSize, this`blockChecksum, this`k
      ensures Inside()
      ensures if o == Again then |x| == old(tmpInTarget)
              else o.hint > 0 && dStage == copyDirect && |x| < old(tmpInTarget)
    {
      hide Ready, CopyAt, CrcAt, HeaderAt;
      ReadyBounds();
      CopyNext(codec, frame, k, tmpInTarget, blockChecksum, rest0, out0, |x|);
      if frameInfo.blockChecksum { blockChecksum := blockChecksum + x; }
      if |x| == tmpInTarget {
        if frameInfo.blockChecksum {
          tmpInSize := 0;
          dStage := getBlockChecksum;
          assert header[..0] == [];
        } else {
          k := k + 1;
          dStage := getBlockHeader;
        }
        Kept();
        return Again;
      }
      CopySum(codec, frame, k, tmpInTarget - |x|, old(blockChecksum) + x, blockChecksum, rest, out);
      tmpInTarget := tmpInTarget - |x|;
      Kept();
      o := Stop(tmpInTarget + (if frameInfo.blockChecksum then BF_SIZE else 0) + BH_SIZE);
    }

    /** dstage_copyDirect: an uncompressed block, as much of it as there is input and room for. */
    method CopyDirect(src: seq<byte>, srcPtr: nat, dst: array<byte>, dstStart: nat, dstPtr: nat, dstEnd: nat)
      returns (o: Outcome, next: nat, nextDst: nat)
      requires AtCopyDirect() && Agrees(src, srcPtr, rest) && dstPtr <= dstEnd <= dst.Length
      requires history.EndsIn(out, dst, dstStart, dstPtr) && history.Clear(dst, dstPtr)
      modifies this`rest, this`out, this`frameRemainingSize, this`xxh, this`tmpInTarget, this`tmpInSize,
               this`blockChecksum, this`dStage, this`k, history, dst
      ensures Inside() && Fed(src, srcPtr, next) && dstPtr <= nextDst <= dstEnd
              && Sent(dst, dstStart, dstPtr, dst[dstPtr..nextDst])
      ensures if o == Again then next > srcPtr else o.hint > 0 && Paused() && (next == |src| || nextDst == dstEnd)
    {
      hide Ready, CopyAt, CrcAt, HeaderAt, Agrees, ValidFrame, Content, History.EndsIn, Inside;
      ReadyBounds();
      InputBounds(src, srcPtr, rest);
      CopyBounds(codec, frame, k, tmpInTarget, blockChecksum, rest, out);
      var sizeToCopy := Min(tmpInTarget, Min(|src| - srcPtr, dstEnd - dstPtr));
      CopyNext(codec, frame, k, tmpInTarget, blockChecksum, rest, out, sizeToCopy);
      var x := Take(src, srcPtr, sizeToCopy);
      Kept();
      next, nextDst := srcPtr + sizeToCopy, dstPtr + sizeToCopy;
      Deliver(dst, dstStart, dstPtr, x);
      o := AfterCopy(x, old(rest), old(out));
    }

    lemma CheckingIsInside()
      requires dStage == getBlockChecksum && AtBlockChecksum()
      ensures Inside()
    {
      hide AtBlockChecksum;
    }

    method CheckBlockCrc(crcSrc: seq<byte>)
      requires Ready() && |crcSrc| == BF_SIZE && CrcAt(codec, frame, k, crcSrc, blockChecksum, rest, out)
      modifies this`dStage, this`k
      ensures Inside() && dStage == getBlockHeader
    {
      hide Ready, CrcAt, HeaderAt, Checksum, Xxh32.Hash, Xxh32.ReadLE32;
      CrcDone(codec, frame, k, crcSrc, blockChecksum, rest, out);
      ChecksumRead(blockChecksum);
      assert Xxh32.ReadLE32(crcSrc) == Xxh32.Hash(0, blockChecksum);  // or else LZ4F_ERROR_blockChecksum_invalid
      dStage := getBlockHeader;
      k := k + 1;
      Kept();
    }

    /** dstage_getBlockChecksum. */
    method GetBlockChecksum(src: seq<byte>, srcPtr: nat) returns (o: Outcome, next: nat)
      requires AtBlockChecksum() && Agrees(src, srcPtr, rest)
      modifies this`rest, this`header, this`tmpInSize, this`dStage, this`k
      ensures Inside() && Fed(src, srcPtr, next)
      ensures if o == Again then next > srcPtr else o.hint > 0 && dStage == getBlockChecksum && next == |src|
    {
      hide Ready, CrcAt, Agrees, Inside;
      ReadyBounds();
      InputBounds(src, srcPtr, rest);
      var crcSrc: seq<byte>;
      if |src| - srcPtr >= 4 && tmpInSize == 0 {
        assert header[..0] == [];
        CrcCollects(codec, frame, k, [], blockChecksum, rest, out, 4);
        crcSrc := Take(src, srcPtr, 4);
        NoneCollected(crcSrc);
        next := srcPtr + 4;
        Kept();
      } else {
        var sizeToCopy := Min(4 - tmpInSize, |src| - srcPtr);
        CrcCollects(codec, frame, k, header[..tmpInSize], blockChecksum, rest, out, sizeToCopy);
        next := StoreHeader(src, srcPtr, sizeToCopy);
        Kept();
        if tmpInSize < 4 {
          CheckingIsInside();
          return Stop(1), next;
        }
        crcSrc := header[..4];
      }
      CheckBlockCrc(crcSrc);
      o := Again;
    }

    // ------------------------------------------------------------- compressed blocks

    lemma StoreFromNow(src: seq<byte>, srcPtr: nat)
      requires dStage == storeCBlock && Ready() && tmpInSize == 0 && tmpInTarget <= |tmpIn|
               && DataAt(codec, frame, k, tmpInTarget, [], rest, out)
      ensures AtStoreCBlock() && Inside()
    {
      hide Ready, DataAt;
      assert tmpIn[..0] == [];
    }

    /** `data`, the next block, decodes with the output so far as history. */
    ghost predicate Decodable(data: seq<byte>)
      requires frame.Data? && ValidInfo(frame.info)
      reads this`frame, this`rest, this`out, this`k
    {
      var r := codec.decode(FrameFormat.History(frame.info, out), data, BlockSize(frame.info.blockSizeID));
      && r.Some? && |r.value| <= BlockSize(frame.info.blockSizeID) && WaitAt(codec, frame, k, r.value, 0, rest, out)
      && out + r.value <= Content(frame.blocks)
    }

    /** The data of a block whose input is complete, its checksum verified and cut off. */
    method CheckedData(selectedIn: seq<byte>) returns (data: seq<byte>)
      requires Ready() && |selectedIn| == tmpInTarget && DataAt(codec, frame, k, tmpInTarget, selectedIn, rest, out)
      modifies this`tmpInTarget
      ensures Ready() && ValidFrame(codec, frame) && frame.Data? && Decodable(data)
    {
      hide Ready, DataAt, WaitAt, Checksum, Content, ValidBlocks, Xxh32.Hash, Xxh32.ReadLE32;
      ReadyBounds();
      DataDone(codec, frame, k, tmpInTarget, selectedIn, rest, out);
      DataBounds(codec, frame, k, tmpInTarget, selectedIn, rest, out);
      if frameInfo.blockChecksum {
        tmpInTarget := tmpInTarget - 4;
        Kept();
        ChecksumRead(selectedIn[..tmpInTarget]);
        assert Xxh32.ReadLE32(selectedIn[tmpInTarget..]) == Xxh32.Hash(0,
            selectedIn[..tmpInTarget]);  // or else LZ4F_ERROR_blockChecksum_invalid
      }
      data := selectedIn[..tmpInTarget];
    }

    /** LZ4_decompress_safe_usingDict with the dictionary at hand: what decoding with all of the
        output as history gives. A dictionary over 1 GB is cut to its last 64 KB. */
    method DecodeBlock(data: seq<byte>) returns (content: seq<byte>)
      requires Ready() && codec.decode(FrameFormat.History(frame.info, out), data,
        BlockSize(frame.info.blockSizeID)).Some?
      ensures content == codec.decode(FrameFormat.History(frame.info, out), data,
        BlockSize(frame.info.blockSizeID)).value
      ensures Ready()
    {
      hide Hist, Allocated, BlockSize;
      var from := if history.dict != Nowhere && history.dictSize > GB then history.dictSize - KB64 else 0;
      var dict := history.Read(from, history.dictSize);
      if frameInfo.linked { HistDecodes(codec, history.Dict(), out, data, history.maxBlockSize); }
      EnoughHistory(codec, history.Dict(), from, data, history.maxBlockSize);
      var r := codec.decode(dict, data, history.maxBlockSize);
      assert r.Some?;  // or else LZ4F_ERROR_decompressionFailed
      content := r.value;
    }

    /** A block that went out whole. */
    method AfterBlock(content: seq<byte>, ghost out0: seq<byte>)
      requires Ready() && WaitAt(codec, frame, k, content, 0, rest, out0) && out == out0 + content
      modifies this`dStage, this`k
      ensures Inside() && dStage == getBlockHeader
    {
      hide Ready, WaitAt, HeaderAt;
      WaitNext(codec, frame, k, content, 0, rest, out0, |content|);
      assert content[0..|content|] == content;
      dStage := getBlockHeader;
      k := k + 1;
      Kept();
    }

    /** A block is decoded into the context's own buffer, behind the dictionary. */
    method DecodeIntoTmp(data: seq<byte>)
      requires Ready() && ValidFrame(codec, frame)
               && codec.decode(FrameFormat.History(frame.info, out), data, BlockSize(frame.info.blockSizeID)).Some?
      requires var content :=
        codec.decode(FrameFormat.History(frame.info, out), data, BlockSize(frame.info.blockSizeID)).value;
        |content| <= BlockSize(frame.info.blockSizeID) && WaitAt(codec, frame, k, content, 0, rest, out)
            && out + content <= Content(frame.blocks)
      modifies this`dStage, this`frameRemainingSize, this`xxh, history
      ensures AtFlushOut() && history.dict == old(history.dict)
              && (history.dict.Dst? ==> history.dictSize == old(history.dictSize))
    {
      hide Hist, Allocated, BlockSize, WaitAt, Content, ValidFrame, Waits, Counters;
      var content := DecodeBlock(data);
      if frameInfo.linked {
        history.KeepBlock(content, out);
      } else {
        history.StorePlain(content);
        assert history.tmpOutBuffer[0..|content|] == history.tmpOutBuffer[..|content|];
      }
      Count(content, out);
      dStage := flushOut;
    }

    twostate lemma SameCounters(decoded: seq<byte>)
      requires old(Counters(decoded)) && frameInfo == old(frameInfo) && xxh == old(xxh)
               && frameRemainingSize == old(frameRemainingSize)
      ensures Counters(decoded)
    {
    }

    /** All of it is out. */
    method NextBlock()
      requires Sizes() && Counters(out) && (frameInfo.linked ==> history.Idle(out))
               && HeaderAt(codec, frame, k + 1, [], rest, out)
      modifies this`dStage, this`k
      ensures Inside() && dStage == getBlockHeader
    {
      hide Hist, Allocated, BlockSize, HeaderAt, Sized;
      dStage := getBlockHeader;
      k := k + 1;
    }

    lemma StillFlushing()
      requires dStage == flushOut && AtFlushOut()
      ensures Inside()
    {
      hide AtFlushOut;
    }

    /** `x`, the next part of the waiting block, is out, and the history knows. */
    ghost predicate AtFlushed(x: seq<byte>)
      reads this, history, history.Memory()
    {
      var h := history;
      var from := h.tmpOut + h.tmpOutStart;
      && dStage == flushOut && Sizes() && h.tmpOutStart + |x| <= h.tmpOutSize
         && h.tmpOut + h.tmpOutSize <= |h.tmpOutBuffer|
      && x == h.tmpOutBuffer[from..from + |x|]
      && Counters(out + h.tmpOutBuffer[from..h.tmpOut + h.tmpOutSize])
      && WaitAt(codec, frame, k, h.tmpOutBuffer[h.tmpOut..h.tmpOut + h.tmpOutSize], h.tmpOutStart, rest, out)
      && (frameInfo.linked ==> h.Flushing(out + x, h.tmpOutStart + |x|))
    }

    /** `n` more bytes of the waiting block, `x`, are out. */
    method AfterFlush(n: nat, ghost x: seq<byte>) returns (o: Outcome)
      requires AtFlushed(x) && |x| == n
      modifies this`out, this`dStage, this`k, history`tmpOutStart
      ensures Inside() && out == old(out) + x
      ensures if o == Again then dStage == getBlockHeader
              else o.hint > 0 && dStage == flushOut && old(history.tmpOutStart) + n < history.tmpOutSize
    {
      hide Hist, Waits, Allocated, BlockSize, WaitAt, HeaderAt, Sized, Counters, Inside;
      ghost var start, content := history.tmpOutStart,
          history.tmpOutBuffer[history.tmpOut..history.tmpOut + history.tmpOutSize];
      FlushPieces(history.tmpOutBuffer, history.tmpOut, history.tmpOutSize, start, n, out);
      WaitNext(codec, frame, k, content, start, rest, out, n);
      ghost var decoded := out + history.tmpOutBuffer[history.tmpOut + start..history.tmpOut + history.tmpOutSize];
      history.Delivered(n, out + x, frameInfo.linked);
      out := out + x;
      SameCounters(decoded);
      if history.tmpOutStart == history.tmpOutSize {
        NextBlock();
        return Again;
      }
      StillFlushing();
      o := Stop(BH_SIZE);
    }

    lemma SizesBounds()
      requires Sizes()
      ensures frame.Data? && frameInfo == frame.info && history.InBounds()
              && |history.tmpOutBuffer| == history.maxBufferSize
      ensures frameInfo.linked || history.dict == Nowhere
    {
    }

    /** The buffers are as large as they were. */
    twostate lemma SizesKept()
      requires old(Sizes()) && frame == old(frame) && frameInfo == old(frameInfo) && header == old(header)
               && tmpIn == old(tmpIn)
      requires history.InBounds() && history.maxBlockSize == old(history.maxBlockSize)
               && history.maxBufferSize == old(history.maxBufferSize)
      requires history.tmpOut == old(history.tmpOut) && (frameInfo.linked || history.dict == Nowhere)
      ensures Sizes()
    {
      hide Allocated, BlockSize;
    }

    /** The next `n` bytes of the waiting block go out. */
    method FlushBytes(dst: array<byte>, dstStart: nat, dstPtr: nat, n: nat) returns (ghost x: seq<byte>)
      requires AtFlushOut() && n <= history.tmpOutSize - history.tmpOutStart && dstPtr + n <= dst.Length
      requires history.EndsIn(out, dst, dstStart, dstPtr) && history.Clear(dst, dstPtr)
      modifies history`tmpOutBuffer, history`dict, history`dictSize, dst
      ensures |x| == n && dst[dstPtr..dstPtr + n] == x && dst[..dstPtr] == old(dst[..dstPtr])
      ensures history.EndsIn(out + x, dst, dstStart, dstPtr + n) && history.Clear(dst, dstPtr + n) && AtFlushed(x)
    {
      hide Hist, WaitAt, Waits, Counters, History.EndsIn, Sizes;
      SizesBounds();
      ghost var decoded :=
          out + history.tmpOutBuffer[history.tmpOut + history.tmpOutStart..history.tmpOut + history.tmpOutSize];
      x := history.DeliverWaiting(dst, dstStart, dstPtr, n, out, frameInfo.linked);
      SizesKept();
      SameCounters(decoded);
    }

    lemma FlushBounds()
      requires AtFlushOut()
      ensures history.tmpOutStart <= history.tmpOutSize
    {
    }

    /** dstage_flushOut: as much of the waiting block as there is room for. */
    method FlushOut(dst: array<byte>, dstStart: nat, dstPtr: nat, dstEnd: nat) returns (o: Outcome, nextDst: nat)
      requires AtFlushOut() && dstPtr <= dstEnd <= dst.Length && history.EndsIn(out, dst, dstStart, dstPtr)
               && history.Clear(dst, dstPtr)
      modifies this`out, this`dStage, this`k, history, dst
      ensures Inside() && dstPtr <= nextDst <= dstEnd && Sent(dst, dstStart, dstPtr, dst[dstPtr..nextDst])
      ensures if o == Again then dStage == getBlockHeader else o.hint > 0 && dStage == flushOut && nextDst == dstEnd
    {
      hide AtFlushOut, AtFlushed, Inside, History.EndsIn;
      FlushBounds();
      var sizeToCopy := Min(history.tmpOutSize - history.tmpOutStart, dstEnd - dstPtr);
      nextDst := dstPtr + sizeToCopy;
      ghost var x := FlushBytes(dst, dstStart, dstPtr, sizeToCopy);
      o := AfterFlush(sizeToCopy, x);
    }

    /** A block whose input is complete: its checksum, then decoding in place if there is room for
        a largest block, or else into the context's own buffer. */
    method DecodeCBlock(selectedIn: seq<byte>, dst: array<byte>, dstStart: nat, dstPtr: nat, dstEnd: nat)
      returns (o: Outcome, nextDst: nat)
      requires Ready() && |selectedIn| == tmpInTarget && DataAt(codec, frame, k, tmpInTarget, selectedIn, rest, out)
               && dstPtr <= dstEnd <= dst.Length
      requires history.EndsIn(out, dst, dstStart, dstPtr) && history.Clear(dst, dstPtr)
      modifies this`out, this`tmpIn, this`tmpInSize, this`tmpInTarget, this`frameRemainingSize, this`xxh, this`dStage,
               this`k, history, dst
      ensures Inside() && dstPtr <= nextDst <= dstEnd && Sent(dst, dstStart, dstPtr, dst[dstPtr..nextDst])
      ensures if o == Again then dStage == getBlockHeader else o.hint > 0 && Paused() && nextDst == dstEnd
    {
      hide Ready, DataAt, WaitAt, History.EndsIn, Inside, ValidFrame, Content;
      ReadyBounds();
      var data := CheckedData(selectedIn);
      ReadyBounds();
      if dstEnd - dstPtr >= history.maxBlockSize {
        var content := DecodeBlock(data);
        nextDst := dstPtr + |content|;
        Deliver(dst, dstStart, dstPtr, content);
        o := Again;
        AfterBlock(content, old(out));
        return;
      }
      DecodeIntoTmp(data);
      o, nextDst := FlushOut(dst, dstStart, dstPtr, dstEnd);
    }

    /** dstage_getCBlock: the whole block at once if it is there. */
    method GetCBlock(src: seq<byte>, srcPtr: nat, dst: array<byte>, dstStart: nat, dstPtr: nat, dstEnd: nat)
      returns (o: Outcome, next: nat, nextDst: nat)
      requires AtCBlock() && Agrees(src, srcPtr, rest) && dstPtr <= dstEnd <= dst.Length
      requires history.EndsIn(out, dst, dstStart, dstPtr) && history.Clear(dst, dstPtr)
      modifies this`rest, this`out, this`tmpIn, this`tmpInSize, this`tmpInTarget, this`frameRemainingSize, this`xxh,
               this`dStage, this`k, history, dst
      ensures Inside() && Fed(src, srcPtr, next) && dstPtr <= nextDst <= dstEnd
              && Sent(dst, dstStart, dstPtr, dst[dstPtr..nextDst])
      ensures if o == Again then next > srcPtr || dStage == storeCBlock
              else o.hint > 0 && Paused() && (next == |src| || nextDst == dstEnd)
    {
      hide Ready, DataAt, Agrees, History.EndsIn, Inside;
      InputBounds(src, srcPtr, rest);
      DataBounds(codec, frame, k, tmpInTarget, [], rest, out);
      if |src| - srcPtr < tmpInTarget {
        tmpInSize := 0;
        dStage := storeCBlock;
        Kept();
        StoreFromNow(src, srcPtr);
        return Again, srcPtr, dstPtr;
      }
      DataCollects(codec, frame, k, tmpInTarget, [], rest, out, tmpInTarget);
      var selectedIn := Take(src, srcPtr, tmpInTarget);
      NoneCollected(selectedIn);
      Kept();
      next := srcPtr + tmpInTarget;
      o, nextDst := DecodeCBlock(selectedIn, dst, dstStart, dstPtr, dstEnd);
    }

    lemma StoringIsInside()
      requires dStage == storeCBlock && AtStoreCBlock()
      ensures Inside()
    {
      hide AtStoreCBlock;
    }

    /** dstage_storeCBlock: the block collected over several calls. */
    method StoreCBlock(src: seq<byte>, srcPtr: nat, dst: array<byte>, dstStart: nat, dstPtr: nat, dstEnd: nat)
      returns (o: Outcome, next: nat, nextDst: nat)
      requires AtStoreCBlock() && Agrees(src, srcPtr, rest) && dstPtr <= dstEnd <= dst.Length
      requires history.EndsIn(out, dst, dstStart, dstPtr) && history.Clear(dst, dstPtr)
      modifies this`rest, this`out, this`tmpIn, this`tmpInSize, this`tmpInTarget, this`frameRemainingSize, this`xxh,
               this`dStage, this`k, history, dst
      ensures Inside() && Fed(src, srcPtr, next) && dstPtr <= nextDst <= dstEnd
              && Sent(dst, dstStart, dstPtr, dst[dstPtr..nextDst])
      ensures if o == Again then dStage == getBlockHeader
              else o.hint > 0 && Paused() && (next == |src| || nextDst == dstEnd)
    {
      hide Ready, DataAt, Agrees, History.EndsIn, Inside;
      InputBounds(src, srcPtr, rest);
      var sizeToCopy := Min(tmpInTarget - tmpInSize, |src| - srcPtr);
      DataCollects(codec, frame, k, tmpInTarget, tmpIn[..tmpInSize], rest, out, sizeToCopy);
      next := StoreTmpIn(src, srcPtr, sizeToCopy);
      Kept();
      if tmpInSize < tmpInTarget {
        nextDst := dstPtr;
        o := Stop(tmpInTarget - tmpInSize + (if frameInfo.blockChecksum then BF_SIZE else 0) + BH_SIZE);
        StoringIsInside();
        return;
      }
      o, nextDst := DecodeCBlock(tmpIn[..tmpInTarget], dst, dstStart, dstPtr, dstEnd);
    }

    // ------------------------------------------------------------- the end of a frame

    /** LZ4F_resetDecompressionContext, at the end of a frame. */
    method Finish()
      requires rest == [] && out == FrameContent(frame) && |header| == MAX_FH_SIZE && history.InBounds()
      requires Allocated(|tmpIn|, history.maxBufferSize) && frameRemainingSize == 0
      modifies this`dStage, history`dict, history`dictSize
      ensures Finished()
    {
      dStage := getFrameHeader;
      history.dict, history.dictSize := Nowhere, 0;
    }

    /** The content checksum. */
    method CheckSuffix(selectedIn: seq<byte>)
      requires Sizes() && Counters(out) && frameInfo.contentChecksum && |selectedIn| == 4
               && SuffixAt(codec, frame, k, selectedIn, rest, out)
      modifies this`dStage, history`dict, history`dictSize
      ensures Finished()
    {
      hide SuffixAt, Content, Allocated, BlockSize, Checksum, Xxh32.Hash, Xxh32.ReadLE32;
      SizeIsRight(codec, frame, k, selectedIn, rest, out);
      SuffixDone(codec, frame, k, selectedIn, rest, out);
      ChecksumRead(xxh);
      assert Xxh32.ReadLE32(selectedIn) == Xxh32.Hash(0, xxh);  // or else LZ4F_ERROR_contentChecksum_invalid
      Finish();
    }

    /** dstage_storeSuffix. */
    method StoreSuffix(src: seq<byte>, srcPtr: nat) returns (o: Outcome, next: nat)
      requires AtStoreSuffix() && Agrees(src, srcPtr, rest)
      modifies this`rest, this`tmpIn, this`tmpInSize, this`dStage, history`dict, history`dictSize
      ensures Fed(src, srcPtr, next) && o.Stop?
      ensures if o.hint == 0 then Finished() && dStage == getFrameHeader
              else Inside() && dStage == storeSuffix && next == |src|
    {
      hide Agrees, SuffixAt, Content, Allocated, BlockSize, Checksum;
      InputBounds(src, srcPtr, rest);
      SizeIsRight(codec, frame, k, tmpIn[..tmpInSize], rest, out);
      var sizeToCopy := Min(4 - tmpInSize, |src| - srcPtr);
      SuffixCollects(codec, frame, k, tmpIn[..tmpInSize], rest, out, sizeToCopy);
      next := StoreTmpIn(src, srcPtr, sizeToCopy);
      if tmpInSize < 4 { return Stop(4 - tmpInSize), next; }
      CheckSuffix(tmpIn[..4]);
      o := Stop(0);
    }

    /** dstage_getSuffix. */
    method GetSuffix(src: seq<byte>, srcPtr: nat) returns (o: Outcome, next: nat)
      requires AtSuffix() && Agrees(src, srcPtr, rest)
      modifies this`rest, this`tmpIn, this`tmpInSize, this`dStage, history`dict, history`dictSize
      ensures Fed(src, srcPtr, next) && o.Stop?
      ensures if o.hint == 0 then Finished() && dStage == getFrameHeader
              else Inside() && dStage == storeSuffix && next == |src|
    {
      hide Agrees, SuffixAt, Content, Allocated, BlockSize, Checksum;
      InputBounds(src, srcPtr, rest);
      SizeIsRight(codec, frame, k, [], rest, out);
      assert frameRemainingSize == 0;  // or else LZ4F_ERROR_frameSize_wrong
      if !frameInfo.contentChecksum {
        SuffixDone(codec, frame, k, [], rest, out);
        Finish();
        return Stop(0), srcPtr;
      }
      if |src| - srcPtr < 4 {
        tmpInSize := 0;
        dStage := storeSuffix;
        assert tmpIn[..0] == [];
        o, next := StoreSuffix(src, srcPtr);
      } else {
        SuffixCollects(codec, frame, k, [], rest, out, 4);
        var selectedIn := Take(src, srcPtr, 4);
        NoneCollected(selectedIn);
        next := srcPtr + 4;
        CheckSuffix(selectedIn);
        o := Stop(0);
      }
    }

    // ------------------------------------------------------------- skippable frames

    method DecodeSFrameSize(selectedIn: seq<byte>)
      requires Clean() && out == [] && |selectedIn| == 4 && SizeAt(frame, selectedIn, rest)
      modifies this`frameInfo, this`tmpInTarget, this`dStage
      ensures AtSkip()
    {
      hide SizeAt, Allocated, ReadLE;
      SizeIsSkippable(frame, selectedIn, rest);
      SizeDone(frame, selectedIn, rest);
      var sFrameSize := ReadLE(selectedIn);
      frameInfo := frameInfo.(contentSize := Some(sFrameSize));
      tmpInTarget := sFrameSize;
      dStage := skipSkippable;
    }

    /** dstage_storeSFrameSize. */
    method StoreSFrameSize(src: seq<byte>, srcPtr: nat) returns (o: Outcome, next: nat)
      requires AtStoreSFrameSize() && Agrees(src, srcPtr, rest)
      modifies this`rest, this`header, this`tmpInSize, this`tmpInTarget, this`dStage, this`frameInfo
      ensures Inside() && Fed(src, srcPtr, next)
      ensures if o == Again then next > srcPtr else o.hint > 0 && Paused() && next == |src|
    {
      hide Agrees, SizeAt, Allocated;
      InputBounds(src, srcPtr, rest);
      var sizeToCopy := Min(tmpInTarget - tmpInSize, |src| - srcPtr);
      SizeCollects(frame, header[4..tmpInSize], rest, sizeToCopy);
      ghost var was, size0, x := header, tmpInSize, rest[..sizeToCopy];
      next := StoreHeader(src, srcPtr, sizeToCopy);
      AfterMagic(was[..size0], x, header[..tmpInSize]);
      assert header[4..tmpInSize] == header[..tmpInSize][4..] && was[4..size0] == was[..size0][4..];
      if tmpInSize < tmpInTarget { return Stop(tmpInTarget - tmpInSize), next; }
      DecodeSFrameSize(header[4..8]);
      o := Again;
    }

    /** dstage_getSFrameSize. */
    method GetSFrameSize(src: seq<byte>, srcPtr: nat) returns (o: Outcome, next: nat)
      requires AtSFrameSize() && Agrees(src, srcPtr, rest)
      modifies this`rest, this`header, this`tmpInSize, this`tmpInTarget, this`dStage, this`frameInfo
      ensures Inside() && Fed(src, srcPtr, next)
      ensures if o == Again then next > srcPtr else o.hint > 0 && Paused() && next == |src|
    {
      hide Agrees, SizeAt, Allocated;
      InputBounds(src, srcPtr, rest);
      if |src| - srcPtr >= 4 {
        SizeCollects(frame, [], rest, 4);
        var selectedIn := Take(src, srcPtr, 4);
        NoneCollected(selectedIn);
        next := srcPtr + 4;
        DecodeSFrameSize(selectedIn);
        o := Again;
      } else {
        tmpInSize, tmpInTarget := 4, 8;
        dStage := storeSFrameSize;
        assert header[4..4] == [];
        o, next := StoreSFrameSize(src, srcPtr);
      }
    }

    /** dstage_skipSkippable. */
    method SkipSkippable(src: seq<byte>, srcPtr: nat) returns (o: Outcome, next: nat)
      requires AtSkip() && Agrees(src, srcPtr, rest)
      modifies this`rest, this`tmpInTarget, this`dStage, history`dict, history`dictSize
      ensures Fed(src, srcPtr, next) && o.Stop?
      ensures if o.hint == 0 then Finished() && dStage == getFrameHeader
              else Inside() && dStage == skipSkippable && tmpInTarget > 0 && next == |src|
    {
      hide Agrees, Allocated;
      InputBounds(src, srcPtr, rest);
      var skipSize := Min(tmpInTarget, |src| - srcPtr);
      Taken(src, srcPtr, rest, skipSize);
      next := srcPtr + skipSize;
      rest := rest[skipSize..];
      tmpInTarget := tmpInTarget - skipSize;
      o := Stop(tmpInTarget);
      if tmpInTarget == 0 { Finish(); }
    }

    // ------------------------------------------------------------- frame headers

    /** Internal buffers, unless those of an earlier frame are large enough. */
    method AllocateBuffers()
      requires history.InBounds() && history.dict == Nowhere && Allocated(|tmpIn|, history.maxBufferSize)
      requires 4 <= frameInfo.blockSizeID <= 7 && history.maxBlockSize == BlockSize(frameInfo.blockSizeID)
      modifies this`tmpIn, history`tmpOutBuffer, history`maxBufferSize
      ensures history.InBounds() && Allocated(|tmpIn|, history.maxBufferSize)
      ensures history.maxBlockSize + BF_SIZE <= |tmpIn|
              && history.maxBlockSize + (if frameInfo.linked then KB128 else 0) <= history.maxBufferSize
    {
      hide Allocated, BlockSize;
      var bufferNeeded := history.maxBlockSize + if frameInfo.linked then KB128 else 0;
      if bufferNeeded > history.maxBufferSize {
        NewlyAllocated(frameInfo.blockSizeID, frameInfo.linked);
        tmpIn := seq(history.maxBlockSize + BF_SIZE, _ => 0);
        history.tmpOutBuffer := seq(bufferNeeded, _ => 0);
        history.maxBufferSize := bufferNeeded;
      } else {
        LargeEnough(frameInfo.blockSizeID, frameInfo.linked, |tmpIn|, history.maxBufferSize);
      }
    }

    /** dstage_init. */
    method Init()
      requires AtInit()
      modifies this`tmpIn, this`tmpInSize, this`tmpInTarget, this`xxh, this`dStage, history
      ensures AtBlockHeader() && history.dict == Nowhere
    {
      hide HeaderAt, History.Idle, Allocated, BlockSize, Sized;
      HeaderIsData(codec, frame, 0, [], rest, out);
      if frameInfo.contentChecksum { xxh := []; }
      AllocateBuffers();
      tmpInSize, tmpInTarget := 0, 0;
      dStage := getBlockHeader;
      history.StartFrame();
    }

    /** A complete header has been decoded. */
    ghost predicate HeaderRead(hSize: nat)
      reads this, history, history.Memory()
    {
      && frame.Data? && hSize == HeaderSize(frame.info) && dStage == init && frameInfo == frame.info
         && |header| == MAX_FH_SIZE
      && 4 <= frameInfo.blockSizeID <= 7
      && history.InBounds() && history.dict == Nowhere && Allocated(|tmpIn|, history.maxBufferSize)
      && history.maxBlockSize == BlockSize(frameInfo.blockSizeID)
      && frameRemainingSize == if Sized(frameInfo) then frameInfo.contentSize.value else 0
    }

    /** The fields of a complete header. */
    method DecodeFields(h: seq<byte>, flg: nat, bd: nat)
      requires Clean() && frame.Data? && ValidInfo(frame.info) && h == Header(frame.info) && flg == FLG(frame.info)
               && bd == 16 * frame.info.blockSizeID
      modifies this`frameInfo, this`frameRemainingSize, this`dStage, history`maxBlockSize
      ensures |h| == HeaderSize(frame.info) && HeaderRead(|h|)
    {
      hide Allocated, ReadLE, LE, BlockSize, Header, FLG, HeaderChecksum;
      FlagsRead(frame.info);
      ReadNumbers(frame.info, h);
      var frameHeaderSize := |h|;
      var contentSizeFlag, dictIDFlag := flg / 8 % 2 == 1, flg % 2 == 1;
      assert bd / 128 == 0 && bd % 16 == 0;  // or else LZ4F_ERROR_reservedFlag_set
      var blockSizeID := bd / 16 % 8;
      assert blockSizeID >= 4;  // or else LZ4F_ERROR_maxBlockSize_invalid
      // or else LZ4F_ERROR_headerChecksum_invalid
      assert HeaderChecksum(h[4..frameHeaderSize - 1]) == h[frameHeaderSize - 1];
      var contentSize := if contentSizeFlag then Some(ReadLE(h[6..14])) else None;
      var dictID := if dictIDFlag then Some(ReadLE(h[frameHeaderSize - 5..frameHeaderSize - 1])) else None;
      frameInfo := FrameInfo(flg / 32 % 2 == 0, flg / 16 % 2 == 1, flg / 4 % 2 == 1, blockSizeID, contentSize, dictID);
      history.maxBlockSize := BlockSize(blockSizeID);
      if contentSizeFlag { frameRemainingSize := contentSize.value; }
      dStage := init;
    }

    /** The rest of LZ4F_decodeHeader, for a data frame. */
    method DecodeDescriptor(p: seq<byte>, fromHeader: bool) returns (hSize: nat)
      requires Clean() && Decodes(codec) && ValidFrame(codec, frame) && frame.Data? && |p| >= MIN_FH_SIZE
               && StartsWith(p, FrameBytes(frame))
      requires fromHeader ==> |p| <= MAX_FH_SIZE && p == header[..|p|] && |p| <= |FrameBytes(frame)|
      modifies this`frameInfo, this`frameRemainingSize, this`header, this`tmpInSize, this`tmpInTarget, this`dStage,
               history`maxBlockSize
      ensures hSize <= |p| && hSize <= |FrameBytes(frame)| && p[..hSize] == FrameBytes(frame)[..hSize]
      ensures if |p| < HeaderSize(frame.info) then
            dStage == storeFrameHeader && Clean() && tmpInSize == hSize == |p|
                && tmpInTarget == HeaderSize(frame.info) && header[..|p|] == p
          else HeaderRead(hSize)
    {
      hide Allocated, FrameBytes, ReadLE, LE, ValidBlocks, BlockSize, Header, FLG, Overwrite, HeaderChecksum, Content;
      ghost var info, whole := frame.info, FrameBytes(frame);
      FrameStart(frame);
      HeaderFields(info);
      FlagsRead(info);
      SameStart(p, whole, Header(info));
      var flg: nat, bd: nat := p[4], p[5];
      assert flg == FLG(info) && bd == 16 * info.blockSizeID;
      assert flg / 2 % 2 == 0;  // or else LZ4F_ERROR_reservedFlag_set
      assert flg / 64 % 4 == 1;  // or else LZ4F_ERROR_headerVersion_wrong
      var contentSizeFlag, dictIDFlag := flg / 8 % 2 == 1, flg % 2 == 1;
      var frameHeaderSize := MIN_FH_SIZE + (if contentSizeFlag then 8 else 0) + (if dictIDFlag then 4 else 0);
      if |p| < frameHeaderSize {
        if !fromHeader {
          OverwriteParts(header, 0, p);
          header := Overwrite(header, 0, p);
        }
        tmpInSize, tmpInTarget := |p|, frameHeaderSize;
        dStage := storeFrameHeader;
        StartOf(p, whole, |p|);
        return |p|;
      }
      StartOf(p, whole, frameHeaderSize);
      DecodeFields(p[..frameHeaderSize], flg, bd);
      hSize := frameHeaderSize;
    }

    /** LZ4F_decodeHeader: `p` is the start of the frame, from the input or from `header`. */
    method DecodeHeader(p: seq<byte>, fromHeader: bool) returns (hSize: nat)
      requires Clean() && Decodes(codec) && ValidFrame(codec, frame) && |p| >= MIN_FH_SIZE
               && StartsWith(p, FrameBytes(frame))
      requires fromHeader ==> |p| <= MAX_FH_SIZE && p == header[..|p|] && |p| <= |FrameBytes(frame)|
      modifies this`frameInfo, this`frameRemainingSize, this`header, this`tmpInSize, this`tmpInTarget, this`dStage,
               history`maxBlockSize
      ensures hSize <= |p| && hSize <= |FrameBytes(frame)| && p[..hSize] == FrameBytes(frame)[..hSize]
      ensures match frame
        case Skippable(_, payload) =>
          Clean() && (if fromHeader then dStage == storeSFrameSize && tmpInSize == hSize == |p| && tmpInTarget == 8
              && header == old(header)
                      else dStage == getSFrameSize && hSize == 4)
        case Data(info, blocks) =>
          if |p| < HeaderSize(info) then
            dStage == storeFrameHeader && Clean() && tmpInSize == hSize == |p| && tmpInTarget == HeaderSize(info)
                && header[..|p|] == p
          else HeaderRead(hSize)
    {
      hide Allocated, FrameBytes, ReadLE, LE, ValidBlocks, BlockSize, Header;
      FrameStart(frame);
      StartOf(p, FrameBytes(frame), 4);
      MagicRead(frame);
      var magic := ReadLE(p[..4]);
      if frame.Data? { MagicOf(frame); }
      if magic - magic % 16 == LZ4F_MAGIC_SKIPPABLE_START {
        if fromHeader {
          tmpInSize, tmpInTarget := |p|, 8;
          dStage := storeSFrameSize;
          StartOf(p, FrameBytes(frame), |p|);
          return |p|;
        }
        dStage := getSFrameSize;
        return 4;
      }
      assert magic == LZ4F_MAGICNUMBER;  // or else LZ4F_ERROR_frameType_unknown
      hSize := DecodeDescriptor(p, fromHeader);
    }

    /** Where the header leads. */
    lemma AfterHeader(got: seq<byte>)
      requires StartAt(codec, frame, got, rest) && out == [] && k == 0 && Decodes(codec)
      requires match frame
        case Skippable(_, _) => Clean() && |got| == 4 && dStage == getSFrameSize
        case Data(_, _) => HeaderRead(|got|)
      ensures Inside()
    {
      hide StartAt, SizeAt, HeaderAt, Allocated;
      if frame.Data? {
        StartToBlocks(codec, frame, got, rest);
      } else {
        StartToSize(codec, frame, got, rest);
        assert got[4..] == [];
      }
    }

    /** The header, or the part of it that tells how long it is, has been collected. */
    method DecodeStored()
      requires dStage == storeFrameHeader && Clean() && Decodes(codec) && out == [] && k == 0
      requires tmpInSize == tmpInTarget <= MAX_FH_SIZE && StartAt(codec, frame, header[..tmpInTarget], rest)
      requires tmpInTarget == MIN_FH_SIZE || (frame.Data? && tmpInTarget == HeaderSize(frame.info))
      modifies this`header, this`tmpInSize, this`tmpInTarget, this`dStage, this`frameInfo, this`frameRemainingSize,
               history`maxBlockSize
      ensures Inside()
    {
      hide StartAt, StartsWith, FrameBytes, SizeAt, HeaderAt, ValidFrame, Allocated, BlockSize, Sized;
      var p := header[..tmpInTarget];
      StartBounds(codec, frame, p, rest);
      var hSize := DecodeHeader(p, true);
      if frame.Skippable? {
        StartToSize(codec, frame, p, rest);
        assert header[4..tmpInSize] == p[4..];
      } else if |p| == HeaderSize(frame.info) {
        AfterHeader(p);
      }
    }

    /** dstage_storeFrameHeader. */
    method StoreFrameHeader(src: seq<byte>, srcPtr: nat) returns (o: Outcome, next: nat)
      requires AtStoreFrameHeader() && Agrees(src, srcPtr, rest)
      modifies this`rest, this`header, this`tmpInSize, this`tmpInTarget, this`dStage, this`frameInfo,
               this`frameRemainingSize, history`maxBlockSize
      ensures Inside() && Fed(src, srcPtr, next)
      ensures if o == Again then next > srcPtr else o.hint > 0 && Paused() && next == |src|
    {
      hide Agrees, StartAt, StartsWith, FrameBytes, SizeAt, HeaderAt, ValidFrame, HeaderRead, Allocated;
      StartBounds(codec, frame, header[..tmpInSize], rest);
      InputBounds(src, srcPtr, rest);
      var sizeToCopy := Min(tmpInTarget - tmpInSize, |src| - srcPtr);
      StartCollects(codec, frame, header[..tmpInSize], rest, sizeToCopy);
      next := StoreHeader(src, srcPtr, sizeToCopy);
      if tmpInSize < tmpInTarget { return Stop(tmpInTarget - tmpInSize + BH_SIZE), next; }
      DecodeStored();
      o := Again;
    }

    /** dstage_getFrameHeader. */
    method GetFrameHeader(src: seq<byte>, srcPtr: nat) returns (o: Outcome, next: nat)
      requires AtFrameHeader() && Agrees(src, srcPtr, rest)
      modifies this`rest, this`header, this`tmpInSize, this`tmpInTarget, this`dStage, this`frameInfo,
               this`frameRemainingSize, history`maxBlockSize
      ensures Inside() && Fed(src, srcPtr, next)
      ensures if o == Again then next > srcPtr else o.hint > 0 && Paused() && next == |src|
    {
      hide StartAt, StartsWith, FrameBytes, SizeAt, HeaderAt, ValidFrame, Allocated, BlockSize, Sized;
      StartBounds(codec, frame, [], rest);
      InputBounds(src, srcPtr, rest);
      if |src| - srcPtr >= MAX_FH_SIZE {
        InputStarts(src, srcPtr, rest);
        var hSize := DecodeHeader(src[srcPtr..], false);
        StartCollects(codec, frame, [], rest, hSize);
        NoneCollected(rest[..hSize]);
        Taken(src, srcPtr, rest, hSize);
        rest := rest[hSize..];
        next := srcPtr + hSize;
        AfterHeader(old(rest)[..hSize]);
        return Again, next;
      }
      tmpInSize := 0;
      if srcPtr == |src| { return Stop(MIN_FH_SIZE), srcPtr; }
      tmpInTarget := MIN_FH_SIZE;
      dStage := storeFrameHeader;
      assert header[..0] == [];
      o, next := StoreFrameHeader(src, srcPtr);
    }

    // ------------------------------------------------------------- one call

    /** The stages that need the history: [init ... getSuffix[ without init. */
    predicate Holding()
      reads this`dStage
    {
      dStage == getBlockHeader || dStage == storeBlockHeader || dStage == copyDirect || dStage == getBlockChecksum
      || dStage == getCBlock || dStage == storeCBlock || dStage == flushOut
    }

    /** What has been written to `dst` is what the frame delivered, and the history is not in
        the way of what will be. */
    twostate predicate Moved(dst: array<byte>, dstStart: nat, dstPtr: nat, nextDst: nat)
      reads this`out, this`dStage, history`dict, history`dictSize, dst
    {
      && SentTo(old(out), old(dst[..]), dstPtr, nextDst, out, dst[..])
      && history.EndsIn(out, dst, dstStart, nextDst) && (Holding() ==> history.Clear(dst, nextDst))
    }

    /** Termination: what a stage that consumes nothing leads to. */
    function Rank(): nat
      reads this`dStage
    {
      if dStage == getCBlock then 3 else if dStage == storeCBlock then 2 else if dStage == flushOut then 1 else 0
    }

    lemma NoHistoryYet()
      requires Inside() && !Holding()
      ensures history.dict == Nowhere || dStage == getSuffix || dStage == storeSuffix
    {
      hide StartAt, HeaderAt, SizeAt, SuffixAt, Allocated, Hist;
    }

    /** A turn before the first block, or in the header of a skippable frame. */
    method StartStep(src: seq<byte>, srcPtr: nat, dstFull: bool) returns (o: Outcome, next: nat)
      requires Inside() && Agrees(src, srcPtr, rest)
      requires dStage == getFrameHeader || dStage == storeFrameHeader || dStage == init || dStage == getSFrameSize
               || dStage == storeSFrameSize
      modifies this`rest, this`header, this`tmpIn, this`tmpInSize, this`tmpInTarget, this`xxh, this`blockChecksum,
               this`dStage, this`frameInfo, this`frameRemainingSize, history
      ensures Inside() && Fed(src, srcPtr, next) && history.dict == Nowhere
      ensures if o == Again then next > srcPtr else o.hint > 0 && Paused() && (next == |src| || dstFull)
    {
      hide Agrees, AtFrameHeader, AtStoreFrameHeader, AtBlockHeader, AtSFrameSize, AtStoreSFrameSize, AtInit, Finished,
        Inside;
      NoHistoryYet();
      Locate();
      if dStage == getFrameHeader {
        o, next := GetFrameHeader(src, srcPtr);
      } else if dStage == storeFrameHeader {
        o, next := StoreFrameHeader(src, srcPtr);
      } else if dStage == init {
        Init();
        o, next := GetBlockHeader(src, srcPtr, dstFull);
      } else if dStage == getSFrameSize {
        o, next := GetSFrameSize(src, srcPtr);
      } else {
        o, next := StoreSFrameSize(src, srcPtr);
      }
    }

    /** A turn after the last block, or in the body of a skippable frame. */
    method EndStep(src: seq<byte>, srcPtr: nat) returns (o: Outcome, next: nat)
      requires Inside() && Agrees(src, srcPtr, rest)
      requires dStage == getSuffix || dStage == storeSuffix || dStage == skipSkippable
      modifies this`rest, this`tmpIn, this`tmpInSize, this`tmpInTarget, this`dStage, history`dict, history`dictSize
      ensures Fed(src, srcPtr, next) && o.Stop? && !Holding()
      ensures if o.hint == 0 then Finished() && dStage == getFrameHeader else Inside() && Paused() && next == |src|
    {
      hide Agrees, AtSuffix, AtStoreSuffix, AtSkip, Finished, Inside, Fed;
      Locate();
      if dStage == getSuffix {
        o, next := GetSuffix(src, srcPtr);
      } else if dStage == storeSuffix {
        o, next := StoreSuffix(src, srcPtr);
      } else {
        o, next := SkipSkippable(src, srcPtr);
      }
    }

    /** A turn between blocks. */
    method BlockStep(src: seq<byte>, srcPtr: nat, dstFull: bool) returns (o: Outcome, next: nat)
      requires Inside() && Agrees(src, srcPtr, rest)
      requires dStage == getBlockHeader || dStage == storeBlockHeader || dStage == getBlockChecksum
      modifies this`rest, this`header, this`tmpIn, this`tmpInSize, this`tmpInTarget, this`dStage, this`blockChecksum,
               this`k
      ensures Inside() && Fed(src, srcPtr, next)
      ensures if o == Again then next > srcPtr else o.hint > 0 && Paused() && (next == |src| || dstFull)
    {
      hide Agrees, AtBlockHeader, AtStoreBlockHeader, AtBlockChecksum, Inside;
      Locate();
      if dStage == getBlockHeader {
        o, next := GetBlockHeader(src, srcPtr, dstFull);
      } else if dStage == storeBlockHeader {
        o, next := StoreBlockHeader(src, srcPtr, dstFull);
      } else {
        o, next := GetBlockChecksum(src, srcPtr);
      }
    }

    twostate lemma NotFed(new src: seq<byte>, srcPtr: nat)
      requires Agrees(src, srcPtr, rest) && rest == old(rest) && frame == old(frame)
      ensures Fed(src, srcPtr, srcPtr)
    {
      hide Agrees;
      InputBounds(src, srcPtr, rest);
    }

    /** A turn inside a block. */
    method DataStep(src: seq<byte>, srcPtr: nat, dst: array<byte>, dstStart: nat, dstPtr: nat, dstEnd: nat)
      returns (o: Outcome, next: nat, nextDst: nat)
      requires Inside() && Agrees(src, srcPtr, rest) && dstPtr <= dstEnd <= dst.Length
      requires dStage == copyDirect || dStage == getCBlock || dStage == storeCBlock || dStage == flushOut
      requires history.EndsIn(out, dst, dstStart, dstPtr) && history.Clear(dst, dstPtr)
      modifies this, history, dst
      ensures Inside() && Fed(src, srcPtr, next) && dstPtr <= nextDst <= dstEnd
              && Sent(dst, dstStart, dstPtr, dst[dstPtr..nextDst])
      ensures if o == Again then next > srcPtr || Rank() < old(Rank())
              else o.hint > 0 && Paused() && (next == |src| || nextDst == dstEnd)
    {
      hide Agrees, AtCopyDirect, AtCBlock, AtStoreCBlock, AtFlushOut, Sent, Inside, Fed, History.EndsIn;
      Locate();
      next, nextDst := srcPtr, dstPtr;
      if dStage == copyDirect {
        o, next, nextDst := CopyDirect(src, srcPtr, dst, dstStart, dstPtr, dstEnd);
      } else if dStage == getCBlock {
        o, next, nextDst := GetCBlock(src, srcPtr, dst, dstStart, dstPtr, dstEnd);
      } else if dStage == storeCBlock {
        o, next, nextDst := StoreCBlock(src, srcPtr, dst, dstStart, dstPtr, dstEnd);
      } else {
        o, nextDst := FlushOut(dst, dstStart, dstPtr, dstEnd);
        NotFed(src, srcPtr);
      }
    }

    /** A turn that may deliver something. */
    method LoudStep(src: seq<byte>, srcPtr: nat, dst: array<byte>, dstStart: nat, dstPtr: nat, dstEnd: nat)
      returns (o: Outcome, next: nat, nextDst: nat)
      requires Inside() && Agrees(src, srcPtr, rest) && dstPtr <= dstEnd <= dst.Length
      requires dStage == copyDirect || dStage == getCBlock || dStage == storeCBlock || dStage == flushOut
      requires history.EndsIn(out, dst, dstStart, dstPtr) && history.Clear(dst, dstPtr)
      modifies this, history, dst
      ensures Inside() && Fed(src, srcPtr, next) && nextDst <= dstEnd && Moved(dst, dstStart, dstPtr, nextDst)
      ensures if o == Again then next > srcPtr || Rank() < old(Rank())
              else o.hint > 0 && Paused() && (next == |src| || nextDst == dstEnd)
    {
      hide Agrees, Inside, Fed, History.EndsIn;
      o, next, nextDst := DataStep(src, srcPtr, dst, dstStart, dstPtr, dstEnd);
    }

    /** A turn that delivers nothing. */
    method QuietStep(src: seq<byte>, srcPtr: nat, dst: array<byte>, dstStart: nat, dstPtr: nat, dstEnd: nat)
      returns (o: Outcome, next: nat)
      requires Inside() && Agrees(src, srcPtr, rest) && dstPtr <= dstEnd <= dst.Length
      requires dStage != copyDirect && dStage != getCBlock && dStage != storeCBlock && dStage != flushOut
      requires history.EndsIn(out, dst, dstStart, dstPtr) && (Holding() ==> history.Clear(dst, dstPtr))
      modifies this, history
      ensures Fed(src, srcPtr, next) && Moved(dst, dstStart, dstPtr, dstPtr)
      ensures o == Again ==> Inside() && next > srcPtr
      ensures o.Stop? ==>
        if o.hint == 0 then Finished() else Inside() && Paused() && (next == |src| || dstPtr == dstEnd)
    {
      hide Agrees, Inside, Finished, History.EndsIn, Fed;
      if Holding() {
        o, next := BlockStep(src, srcPtr, dstPtr == dstEnd);
      } else if dStage == getSuffix || dStage == storeSuffix || dStage == skipSkippable {
        o, next := EndStep(src, srcPtr);
      } else {
        o, next := StartStep(src, srcPtr, dstPtr == dstEnd);
      }
    }

    /** One turn of the state machine. */
    method Step(src: seq<byte>, srcPtr: nat, dst: array<byte>, dstStart: nat, dstPtr: nat, dstEnd: nat)
      returns (o: Outcome, next: nat, nextDst: nat)
      requires Inside() && Agrees(src, srcPtr, rest) && dstPtr <= dstEnd <= dst.Length
      requires history.EndsIn(out, dst, dstStart, dstPtr) && (Holding() ==> history.Clear(dst, dstPtr))
      modifies this, history, dst
      ensures Fed(src, srcPtr, next) && nextDst <= dstEnd && Moved(dst, dstStart, dstPtr, nextDst)
      ensures o == Again ==> Inside() && (next > srcPtr || Rank() < old(Rank()))
      ensures o.Stop? ==>
        if o.hint == 0 then Finished() else Inside() && Paused() && (next == |src| || nextDst == dstEnd)
    {
      hide Agrees, Inside, Finished, History.EndsIn, Fed, Moved, Sent;
      if dStage == copyDirect || dStage == getCBlock || dStage == storeCBlock || dStage == flushOut {
        o, next, nextDst := LoudStep(src, srcPtr, dst, dstStart, dstPtr, dstEnd);
      } else {
        o, next := QuietStep(src, srcPtr, dst, dstStart, dstPtr, dstEnd);
        nextDst := dstPtr;
      }
    }

    /** The state machine runs until it has to stop. */
    method Run(src: seq<byte>, dst: array<byte>, dstStart: nat, dstEnd: nat)
      returns (hint: nat, srcPtr: nat, dstPtr: nat)
      requires Inside() && Agrees(src, 0, rest) && dstStart <= dstEnd <= dst.Length
               && (Holding() ==> history.Clear(dst, dstStart))
      modifies this, history, dst
      ensures Fed(src, 0, srcPtr) && dstPtr <= dstEnd && Moved(dst, dstStart, dstStart, dstPtr)
      ensures if hint == 0 then Finished() else Inside() && Paused() && (srcPtr == |src| || dstPtr == dstEnd)
    {
      hide Agrees, Inside, Finished, Paused, Rank, Holding, History.Clear, History.EndsIn, FedTo, SentTo;
      srcPtr, dstPtr := 0, dstStart;
      ghost var rest0, out0, dst0 := rest, out, dst[..];
      NothingYet(rest, src, out, dst[..], dstStart);
      history.NothingYet(out, dst, dstStart);
      var o := Again;
      while o == Again
        invariant dstPtr <= dstEnd && FedTo(rest0, src, 0, srcPtr, rest) && frame == old(frame)
                  && SentTo(out0, dst0, dstStart, dstPtr, out, dst[..])
        invariant history.EndsIn(out, dst, dstStart, dstPtr) && (Holding() ==> history.Clear(dst, dstPtr))
        invariant o == Again ==> Inside()
        invariant o.Stop? ==>
          if o.hint == 0 then Finished() else Inside() && Paused() && (srcPtr == |src| || dstPtr == dstEnd)
        decreases o == Again, |rest|, Rank()
      {
        ghost var rest1, out1, dst1 := rest, out, dst[..];
        FedBounds(rest0, src, 0, srcPtr, rest);
        var next, nextDst;
        o, next, nextDst := Step(src, srcPtr, dst, dstStart, dstPtr, dstEnd);
        FedBounds(rest1, src, srcPtr, next, rest);
        FedOn(rest0, src, 0, srcPtr, next, rest1, rest);
        SentOn(out0, dst0, dstStart, dstPtr, nextDst, out1, dst1, out, dst[..]);
        srcPtr, dstPtr := next, nextDst;
      }
      hint := o.hint;
    }

    // ------------------------------------------------------------- between calls

    lemma HoldingIsReady()
      requires Inside() && Holding() && dStage != flushOut
      ensures Ready()
    {
      hide Ready, HeaderAt, CopyAt, CrcAt, DataAt;
    }

    /** Only where the history is has changed. */
    twostate lemma StillHolding()
      requires old(Inside()) && old(Holding()) && dStage == old(dStage) != flushOut && Ready()
      requires unchanged(`frame, `rest, `out, `k, `header, `tmpIn, `tmpInSize, `tmpInTarget, `blockChecksum)
      ensures Inside()
    {
      hide Ready, HeaderAt, CopyAt, CrcAt, DataAt;
    }

    /** The history is moved out of the caller's buffer. */
    method PreserveIdle()
      requires Inside() && Holding() && dStage != flushOut && frameInfo.linked && history.dict != Tmp
      modifies history`tmpOutBuffer, history`dict, history`dictSize, history`tmpOut
      ensures Inside() && history.dict == Tmp
    {
      hide Inside, Holding, Hist, Allocated, BlockSize, Sized;
      HoldingIsReady();
      history.SaveHistory(false, out);
      StillHolding();
    }

    /** The same while a decoded block waits. */
    method PreserveFlushing()
      requires AtFlushOut() && frameInfo.linked && history.dict != Tmp
      modifies history`tmpOutBuffer, history`dict, history`dictSize, history`tmpOut
      ensures Inside() && history.dict == Tmp
    {
      hide Hist, Waits, WaitAt, Inside, Sizes, Counters;
      SizesBounds();
      ghost var h, was := history, history.tmpOutBuffer;
      ghost var decoded := out + was[h.tmpOut + h.tmpOutStart..h.tmpOut + h.tmpOutSize];
      history.SaveHistory(true, out);
      SizesKept();
      SameCounters(decoded);
      SameTail(was, h.tmpOutBuffer, h.tmpOut, 0, h.tmpOutSize);
      SameTail(was, h.tmpOutBuffer, h.tmpOut, h.tmpOutStart, h.tmpOutSize);
      StillFlushing();
    }

    /** Nothing that is still needed is in a buffer of the caller. */
    ghost predicate Detached()
      reads this`dStage, history`dict
    {
      Holding() ==> !history.dict.Dst?
    }

    lemma NotLinked()
      requires Inside() && Holding() && !frameInfo.linked
      ensures history.dict == Nowhere
    {
      hide HeaderAt, CopyAt, CrcAt, DataAt, WaitAt, Hist, Allocated, BlockSize, Counters;
    }

    /** Preserve history within tmp whenever necessary. */
    method Preserve(stableDst: bool)
      requires Inside() && Paused()
      modifies history`tmpOutBuffer, history`dict, history`dictSize, history`tmpOut
      ensures Inside() && (!stableDst ==> Detached())
      ensures history.dict.Dst? ==> history.dict == old(history.dict) && history.dictSize == old(history.dictSize)
    {
      hide Inside, AtFlushOut;
      Locate();
      if frameInfo.linked && history.dict != Tmp && !stableDst && (dStage == init || Holding()) {
        if dStage == flushOut { PreserveFlushing(); } else { PreserveIdle(); }
      } else if Holding() && !frameInfo.linked {
        NotLinked();
      }
    }

    /** LZ4F_decompress: input from `src`, output to the `dstSize` bytes of `dst` from `dstStart`
        on. It stops at the end of the frame, or when the input or the room is used up. Unless the
        caller keeps `dst` as it is, the context does not depend on it any more. */
    method Decompress(src: seq<byte>, dst: array<byte>, dstStart: nat, dstSize: nat, stableDst: bool)
      returns (nextSrcSizeHint: nat, srcRead: nat, dstWritten: nat)
      requires Inside() && Agrees(src, 0, rest) && dstStart + dstSize <= dst.Length
               && (Holding() ==> history.Clear(dst, dstStart))
      modifies this, history, dst
      ensures Fed(src, 0, srcRead)
      ensures dstWritten <= dstSize && SentTo(old(out), old(dst[..]), dstStart, dstStart + dstWritten, out, dst[..])
      ensures if nextSrcSizeHint == 0 then Finished()
              else Inside() && rest != [] && (srcRead == |src| || dstWritten == dstSize)
      ensures nextSrcSizeHint > 0 && !stableDst ==> Detached()
      ensures nextSrcSizeHint > 0 && Holding() ==> history.Clear(dst, dstStart + dstWritten)
    {
      hide Agrees, Inside, Finished, History.EndsIn, Fed, SentTo;
      var srcPtr, dstPtr;
      nextSrcSizeHint, srcPtr, dstPtr := Run(src, dst, dstStart, dstStart + dstSize);
      SentBounds(old(out), old(dst[..]), dstStart, dstPtr, out, dst[..]);
      if nextSrcSizeHint > 0 {  // at the end of a frame there is no history to preserve
        MoreToCome();
        Preserve(stableDst);
      }
      srcRead, dstWritten := srcPtr, dstPtr - dstStart;
    }

    /** At any time, what has been delivered is a prefix of what the frame contains. */
    lemma OutIsPrefix()
      requires Inside()
      ensures out <= FrameContent(frame)
    {
      hide Sizes, Clean, Counters, History.Flushing, History.Idle, StartAt, HeaderAt, CopyAt, CrcAt, DataAt, WaitAt,
        SuffixAt, SizeAt, Content;
      match dStage
      case getBlockHeader => HeaderPrefix(codec, frame, k, [], rest, out);
      case storeBlockHeader => HeaderPrefix(codec, frame, k, tmpIn[..tmpInSize], rest, out);
      case copyDirect => CopyPrefix(codec, frame, k, tmpInTarget, blockChecksum, rest, out);
      case getBlockChecksum => CrcPrefix(codec, frame, k, header[..tmpInSize], blockChecksum, rest, out);
      case getCBlock => DataPrefix(codec, frame, k, tmpInTarget, [], rest, out);
      case storeCBlock => DataPrefix(codec, frame, k, tmpInTarget, tmpIn[..tmpInSize], rest, out);
      case flushOut => WaitPrefix(codec, frame, k,
          history.tmpOutBuffer[history.tmpOut..history.tmpOut + history.tmpOutSize], history.tmpOutStart, rest, out);
      case getSuffix => SuffixPrefix(codec, frame, k, [], rest, out);
      case storeSuffix => SuffixPrefix(codec, frame, k, tmpIn[..tmpInSize], rest, out);
      case init => HeaderPrefix(codec, frame, 0, [], rest, out);
      case _ =>
    }

    /** Ready for a frame. */
    ghost predicate AtRest()
      reads this, history
    {
      dStage == getFrameHeader && Clean()
    }

    /** The next frame is `f`. */
    ghost method Begin(f: Frame)
      requires AtRest() && Decodes(codec) && ValidFrame(codec, f)
      modifies this`frame, this`rest, this`out, this`k
      ensures Inside() && Detached() && frame == f && rest == FrameBytes(f) != [] && out == []
    {
      hide FrameBytes, ValidBlocks, Allocated;
      frame, rest, out, k := f, FrameBytes(f), [], 0;
      NoneCollected(rest);
      StartBounds(codec, f, [], rest);
    }

  }

  // ---------------------------------------------------------------- many calls

  lemma Offered(input: seq<byte>, from: nat, to: nat, whole: seq<byte>, at: nat)
    requires at <= from <= to <= |input| && from - at <= |whole| && whole <= input[at..]
    ensures Agrees(input[from..to], 0, whole[from - at..])
  {
    var n := Min(to - from, |whole| - (from - at));
    SliceOfSlice(input, from, to, 0, n);
    assert input[at..][from - at..from - at + n] == input[from..from + n];
    assert whole[from - at..][..n] == whole[from - at..from - at + n];
  }

  /** A call of LZ4F_decompress: the input it is offered, and where its output may go. */
  datatype Call = Call(chunk: nat, place: nat, room: nat, stableDst: bool)

  /** Calls that stay inside a buffer; what a call was told to be stable, the next one leaves alone. */
  ghost predicate Fit(calls: nat -> Call, length: nat) {
    && (forall i: nat :: calls(i).place + calls(i).room <= length)
    && (forall i: nat :: calls(i).stableDst ==> calls(i).place + calls(i).room <= calls(i + 1).place)
  }

  /** Calls without input or without room are followed by one that has both: `wait` counts down to it. */
  ghost predicate GoOn(calls: nat -> Call, wait: nat -> nat) {
    forall i: nat :: (calls(i).chunk > 0 && calls(i).room > 0) || wait(i + 1) < wait(i)
  }

  /** A frame decoded with any number of calls on a context at rest, each offered the next bytes of
      the input and some part of `dst`, whatever earlier calls wrote there. */
  method DecodeFrame(d: Decoder, ghost f: Frame, input: seq<byte>, at: nat, dst: array<byte>, calls: nat -> Call,
      ghost wait: nat -> nat)
    returns (produced: seq<byte>, end: nat)
    requires d.AtRest() && Decodes(d.codec) && ValidFrame(d.codec, f) && at <= |input| && FrameBytes(f) <= input[at..]
    requires Fit(calls, dst.Length) && GoOn(calls, wait)
    modifies d, d.history, dst
    ensures produced == FrameContent(f) && end == at + |FrameBytes(f)| && d.AtRest()
  {
    hide FrameBytes, FrameContent, ValidBlocks, Decoder.Inside, Decoder.Clean, Decoder.Holding, Agrees;
    d.Begin(f);
    produced, end := [], at;
    ghost var whole := FrameBytes(f);
    var hint, i: nat := 1, 0;
    while hint != 0
      invariant at <= end && end - at <= |whole| && whole <= input[at..] && d.frame == f
                && d.rest == whole[end - at..] && d.out == produced
      invariant if hint != 0 then d.Inside() && d.rest != [] && produced <= FrameContent(f) else d.Finished()
      invariant hint != 0 ==> d.Holding() ==> d.history.Clear(dst, calls(i).place)
      decreases hint != 0, |d.rest| + |FrameContent(f)| - |produced|, wait(i)
    {
      var call := calls(i);
      var src := input[end..Min(end + call.chunk, |input|)];
      Offered(input, end, end + |src|, whole, at);
      var srcRead, dstWritten;
      hint, srcRead, dstWritten := d.Decompress(src, dst, call.place, call.room, call.stableDst);
      if hint != 0 { d.OutIsPrefix(); }
      produced := produced + dst[call.place..call.place + dstWritten];
      end := end + srcRead;
      i := i + 1;
    }
  }
}
