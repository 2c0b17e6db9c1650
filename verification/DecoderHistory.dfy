/** The decoded output an LZ4F_dctx can still refer to, and LZ4F_updateDict. */
module DecoderHistory {
  import opened Bytes
  import opened Numbers
  import opened FrameFormat
  import opened FrameHistory


  /** The `dict` pointer: null, the start of the context's own buffer, or a place in a buffer of
      the caller. */
  datatype Place = Nowhere | Tmp | Dst(buffer: array<byte>, start: nat)

  /** The fields of LZ4F_dctx that keep decoded output. */
  class History {
    var maxBlockSize: nat
    var maxBufferSize: nat
    var tmpOutBuffer: seq<byte>
    var dict: Place
    var dictSize: nat
    var tmpOut: nat
    var tmpOutSize: nat
    var tmpOutStart: nat

    constructor ()
      ensures InBounds() && dict == Nowhere && maxBufferSize == 0
    {
      maxBlockSize, maxBufferSize, tmpOutBuffer := 0, 0, [];
      dict, dictSize, tmpOut, tmpOutSize, tmpOutStart := Nowhere, 0, 0, 0, 0;
    }

    ghost function Memory(): set<object>
      reads this`dict
    {
      if dict.Dst? then {dict.buffer} else {}
    }

    ghost predicate InBounds()
      reads this`tmpOutBuffer, this`maxBufferSize, this`dict, this`dictSize
    {
      && |tmpOutBuffer| == maxBufferSize
      && match dict
         case Nowhere => dictSize == 0
         case Tmp => dictSize <= maxBufferSize
         case Dst(buffer, start) => start + dictSize <= buffer.Length
    }

    /** The bytes the dictionary pointer and size describe. */
    ghost function Dict(): (d: seq<byte>)
      requires InBounds()
      reads this`tmpOutBuffer, this`maxBufferSize, this`dict, this`dictSize, Memory()
      ensures |d| == dictSize
    {
      match dict
      case Nowhere => []
      case Tmp => tmpOutBuffer[..dictSize]
      case Dst(buffer, start) => buffer[start..start + dictSize]
    }

    ghost predicate Linked()
      reads this`tmpOutBuffer, this`maxBufferSize, this`maxBlockSize, this`dict, this`dictSize
    {
      InBounds() && maxBlockSize + KB128 <= maxBufferSize
    }

    /** Between blocks: the dictionary is good for the next one. */
    ghost predicate Idle(out: seq<byte>)
      reads this`tmpOutBuffer, this`maxBufferSize, this`maxBlockSize, this`dict, this`dictSize, Memory()
    {
      Linked() && Hist(Dict(), out, KB64)
    }

    /** While a block waits, and `start` bytes of it have been delivered. */
    ghost predicate Flushing(out: seq<byte>, start: nat)
      reads this, Memory()
    {
      Linked() && tmpOutSize <= maxBlockSize && Waits(Dict(), dict == Tmp, tmpOutBuffer, tmpOut, tmpOutSize, start, out)
    }

    lemma FlushedIsIdle(out: seq<byte>)
      requires Flushing(out, tmpOutSize)
      ensures Idle(out)
    {
      hide Hist;
      AllDelivered(Dict(), dict == Tmp, tmpOutBuffer, tmpOut, tmpOutSize, out);
    }

    /** Nothing decoded yet, and no history. */
    method StartFrame()
      requires InBounds() && dict == Nowhere
      modifies this`tmpOut, this`tmpOutStart, this`tmpOutSize
      ensures InBounds() && tmpOut == 0 && (maxBlockSize + KB128 <= maxBufferSize ==> Idle([]))
    {
      tmpOut, tmpOutStart, tmpOutSize := 0, 0, 0;
      HistNothing(KB64);
    }

    // ------------------------------------------------------------- where output goes

    /** `dst[from..to]` is the end of the output. */
    ghost predicate EndsIn(out: seq<byte>, dst: array<byte>, from: nat, to: nat)
      reads dst
    {
      from <= to <= dst.Length && to - from <= |out| && dst[from..to] == out[|out| - (to - from)..]
    }

    lemma NothingYet(out: seq<byte>, dst: array<byte>, from: nat)
      requires from <= dst.Length
      ensures EndsIn(out, dst, from, from)
    {
    }

    /** The dictionary does not reach into what is about to be written. */
    ghost predicate Clear(dst: array<byte>, dstPtr: nat)
      reads this`dict, this`dictSize
    {
      dict.Dst? && dict.buffer == dst ==> dict.start + dictSize <= dstPtr
    }

    /** New output, written where the output so far ends. */
    method Deliver(dst: array<byte>, dstStart: nat, dstPtr: nat, x: seq<byte>, ghost out: seq<byte>)
      requires InBounds() && Clear(dst, dstPtr) && dstPtr + |x| <= dst.Length && EndsIn(out, dst, dstStart, dstPtr)
      modifies dst
      ensures dst[dstPtr..dstPtr + |x|] == x && dst[..dstPtr] == old(dst[..dstPtr])
      ensures InBounds() && Dict() == old(Dict())
      ensures EndsIn(out, dst, dstStart, dstPtr) && EndsIn(out + x, dst, dstStart, dstPtr + |x|)
    {
      ghost var delivered := dst[dstStart..dstPtr];
      forall i | 0 <= i < |x| { dst[dstPtr + i] := x[i]; }
      assert dst[dstStart..dstPtr] == delivered;
      ghost var s := dst[..];
      SlicesJoin(s, dstStart, dstPtr, dstPtr + |x|);
      EndsInMore(delivered, x, out);
    }

    /** A stretch of the dictionary, as memcpy reads it. */
    method Read(from: nat, to: nat) returns (p: seq<byte>)
      requires InBounds() && from <= to <= dictSize
      ensures p == Dict()[from..to]
    {
      match dict
      case Nowhere => p := [];
      case Tmp =>
        p := tmpOutBuffer[from..to];
        SliceOfSlice(tmpOutBuffer, 0, dictSize, from, to);
        assert tmpOutBuffer[..dictSize] == tmpOutBuffer[0..dictSize];
      case Dst(buffer, start) =>
        p := buffer[start + from..start + to];
        SliceOfSlice(buffer[..], start, start + dictSize, from, to);
    }

    /** The last `n` bytes of the dictionary go to the front of the context's own buffer. */
    method CopyToFront(n: nat)
      requires InBounds() && n <= dictSize && n <= maxBufferSize && (dict == Tmp ==> n <= dictSize - n)
      modifies this`tmpOutBuffer
      ensures |tmpOutBuffer| == maxBufferSize && tmpOutBuffer[..n] == old(Dict()[dictSize - n..])
    {
      hide Overwrite;
      ghost var d := Dict();
      var kept := Read(dictSize - n, dictSize);
      OverwriteParts(tmpOutBuffer, 0, kept);
      tmpOutBuffer := Overwrite(tmpOutBuffer, 0, kept);
      assert d[dictSize - n..] == d[dictSize - n..dictSize];
    }

    // ------------------------------------------------------------- a decoded block

    /** The room for a decoded block behind the dictionary. */
    method PlaceTmpOut(ghost out: seq<byte>)
      requires Idle(out)
      modifies this`tmpOutBuffer, this`dictSize, this`tmpOut
      ensures Idle(out) && tmpOut + maxBlockSize <= maxBufferSize && tmpOut == Behind(Dict(), dict == Tmp)
      ensures dict != Tmp ==> dictSize == old(dictSize)
    {
      hide Hist;
      if dict == Tmp {
        if dictSize > KB128 {
          HistCut(Dict(), out, KB64);
          CopyToFront(KB64);
          dictSize := KB64;
        }
        tmpOut := dictSize;
      } else {
        tmpOut := Min(dictSize, KB64);
      }
    }

    /** A decoded block arrives there. */
    method StoreBlock(content: seq<byte>, ghost out: seq<byte>)
      requires Idle(out) && |content| <= maxBlockSize && tmpOut + maxBlockSize <= maxBufferSize
               && tmpOut == Behind(Dict(), dict == Tmp)
      modifies this`tmpOutBuffer, this`tmpOutSize, this`tmpOutStart
      ensures Flushing(out, 0) && tmpOutStart == 0 && tmpOutSize == |content|
      ensures tmpOutBuffer[tmpOut..tmpOut + tmpOutSize] == content
    {
      hide Hist, Waits, Overwrite;
      ghost var d := Dict();
      StoreWaits(d, dict == Tmp, tmpOutBuffer, content, out);
      tmpOutBuffer := Overwrite(tmpOutBuffer, tmpOut, content);
      tmpOutSize, tmpOutStart := |content|, 0;
      assert Dict() == d;
    }

    /** Room and block together. */
    method KeepBlock(content: seq<byte>, ghost out: seq<byte>)
      requires Idle(out) && |content| <= maxBlockSize
      modifies this`tmpOutBuffer, this`dictSize, this`tmpOut, this`tmpOutSize, this`tmpOutStart
      ensures Flushing(out, 0) && tmpOutStart == 0 && tmpOutSize == |content| && tmpOut + tmpOutSize <= maxBufferSize
      ensures tmpOutBuffer[tmpOut..tmpOut + tmpOutSize] == content && (dict != Tmp ==> dictSize == old(dictSize))
    {
      hide Hist, Waits;
      PlaceTmpOut(out);
      StoreBlock(content, out);
    }

    /** The same without history. */
    method StorePlain(content: seq<byte>)
      requires InBounds() && dict == Nowhere && |content| <= maxBufferSize && tmpOut == 0
      modifies this`tmpOutBuffer, this`tmpOutSize, this`tmpOutStart
      ensures InBounds() && tmpOutStart == 0 && tmpOutSize == |content| && tmpOutBuffer[..tmpOutSize] == content
    {
      OverwriteParts(tmpOutBuffer, 0, content);
      tmpOutBuffer := Overwrite(tmpOutBuffer, 0, content);
      tmpOutSize, tmpOutStart := |content|, 0;
    }

    /** The last bytes of the dictionary before the waiting block, as many as still matter. */
    method ReadInFront(start: nat, ghost out: seq<byte>, ghost d: seq<byte>) returns (copied: seq<byte>)
      requires InBounds() && d == Dict() && (tmpOut + start <= |d| || KB64 <= |d|)
      requires start <= tmpOutSize && tmpOut + start <= |out| && Min(KB64, |out| - start) <= tmpOut
      ensures |copied| == if tmpOutSize > KB64 then 0 else if KB64 - tmpOutSize > tmpOut then tmpOut
              else KB64 - tmpOutSize
      ensures |copied| > 0 ==>
        |copied| + start <= |d| && copied == d[|d| - start - |copied|..|d| - start]
    {
      var preserveSize := tmpOut;
      var copySize := if tmpOutSize > KB64 then 0 else KB64 - tmpOutSize;
      if copySize > preserveSize { copySize := preserveSize; }
      CopyIsEnough(tmpOut, tmpOutSize, start, |out|, dictSize, copySize);
      copied := [];
      if copySize > 0 { copied := Read(dictSize - start - copySize, dictSize - start); }
    }

    /** The context's buffer with them in front of it. */
    method FrontCopied(ghost out: seq<byte>, start: nat) returns (now: seq<byte>)
      requires InBounds() && dict != Tmp && Waits(Dict(), false, tmpOutBuffer, tmpOut, tmpOutSize, start, out)
      ensures |now| == |tmpOutBuffer| && now[tmpOut..] == tmpOutBuffer[tmpOut..]
      ensures tmpOut + start <= |now| && Waits(now[..tmpOut + start], true, now, tmpOut, tmpOutSize, start, out)
    {
      hide Hist, Waits, Overwrite, Min, Dict;
      ghost var d := Dict();
      WaitsBounds(d, false, tmpOutBuffer, tmpOut, tmpOutSize, start, out);
      var copied := ReadInFront(start, out, d);
      FrontWaits(d, tmpOutBuffer, tmpOut, tmpOutSize, start, out, copied);
      now := Overwrite(tmpOutBuffer, tmpOut - |copied|, copied);
    }

    /** They are copied in front of it, and the context's buffer becomes the dictionary. */
    method CopyInFront(ghost out: seq<byte>, start: nat)
      requires Flushing(out, start) && dict != Tmp
      modifies this`tmpOutBuffer, this`dict, this`dictSize
      ensures Flushing(out, start) && dict == Tmp && tmpOutBuffer[tmpOut..] == old(tmpOutBuffer)[tmpOut..]
    {
      hide Hist, Waits;
      tmpOutBuffer := FrontCopied(out, start);
      dict, dictSize := Tmp, tmpOut + start;
    }

    /** `n` more bytes of the waiting block are out; when none is left, none waits. */
    method Delivered(n: nat, ghost out: seq<byte>, ghost linked: bool)
      requires InBounds() && tmpOutStart + n <= tmpOutSize && (linked ==> Flushing(out, tmpOutStart + n))
      modifies this`tmpOutStart
      ensures InBounds() && tmpOutStart == old(tmpOutStart) + n
      ensures linked ==> Flushing(out, tmpOutStart) && (tmpOutStart == tmpOutSize ==> Idle(out))
    {
      hide Hist, Waits;
      tmpOutStart := tmpOutStart + n;
      if linked && tmpOutStart == tmpOutSize { FlushedIsIdle(out); }
    }

    // ------------------------------------------------------------- LZ4F_updateDict

    /** History in `dst` becomes large enough to become the dictionary. */
    method BecomesDst(dst: array<byte>, dstPtr: nat, dstSize: nat, bufferStart: nat, ghost out: seq<byte>,
        ghost window: nat)
      requires Linked() && dstPtr + dstSize <= dst.Length && EndsIn(out, dst, bufferStart, dstPtr)
               && window <= KB64 <= dstPtr - bufferStart + dstSize
      modifies this`dict, this`dictSize
      ensures Linked() && dict.Dst? && dict.buffer == dst && dict.start + dictSize == dstPtr + dstSize
              && KB64 <= dictSize
      ensures Hist(Dict(), out + dst[dstPtr..dstPtr + dstSize], window)
    {
      hide Hist;
      ghost var x, s := dst[dstPtr..dstPtr + dstSize], dst[..];
      DstIsHistory(s[bufferStart..dstPtr], x, out, window);
      SlicesJoin(s, bufferStart, dstPtr, dstPtr + dstSize);
      dict := Dst(dst, bufferStart);
      dictSize := dstPtr - bufferStart + dstSize;
    }

    /** Its first cases: the dictionary stays, or becomes, a stretch of `dst`. */
    method StaysInDst(dst: array<byte>, dstPtr: nat, dstSize: nat, bufferStart: nat, ghost out: seq<byte>,
        ghost window: nat)
      returns (done: bool)
      requires Linked() && Hist(Dict(), out, window)
      requires dstPtr + dstSize <= dst.Length && EndsIn(out, dst, bufferStart, dstPtr)
      modifies this`dict, this`dictSize
      ensures Linked()
      ensures !done ==>
        Dict() == old(Dict()) && dstSize < KB64 && dict != Nowhere && (dict == old(dict) || (Dict() == [] && dict.Dst?))
      ensures done ==> dict.Dst? && dict.buffer == dst && dict.start + dictSize == dstPtr + dstSize
      ensures done ==> Hist(Dict(), out + dst[dstPtr..dstPtr + dstSize], Min(KB64, window + dstSize))
      ensures done ==>
        KB64 <= dictSize || (dictSize == old(dictSize) + dstSize && (old(dict) != Tmp || old(Dict()) == []))
    {
      hide Hist;
      ghost var x, d, s := dst[dstPtr..dstPtr + dstSize], Dict(), dst[..];
      if dictSize == 0 {
        dict := Dst(dst, dstPtr);
        assert Dict() == d;
      }
      if dict.Dst? && dict.buffer == dst && dict.start + dictSize == dstPtr {
        HistGrows(d, out, x, window);
        SlicesJoin(s, dict.start, dstPtr, dstPtr + dstSize);
        dictSize := dictSize + dstSize;
        return true;
      }
      if dstPtr - bufferStart + dstSize >= KB64 {
        BecomesDst(dst, dstPtr, dstSize, bufferStart, out, Min(KB64, window + dstSize));
        return true;
      }
      done := false;
    }

    /** Delivered from the context's own buffer, which is the dictionary or becomes it. */
    method GrowTmp(dst: array<byte>, dstPtr: nat, dstSize: nat, ghost out: seq<byte>)
      requires Flushing(out, tmpOutStart) && tmpOutStart + dstSize <= tmpOutSize && dstPtr + dstSize <= dst.Length
      requires dst[dstPtr..dstPtr + dstSize] == tmpOutBuffer[tmpOut + tmpOutStart..tmpOut + tmpOutStart + dstSize]
      modifies this`tmpOutBuffer, this`dict, this`dictSize
      ensures Flushing(out + dst[dstPtr..dstPtr + dstSize], tmpOutStart + dstSize) && dict == Tmp
      ensures tmpOutBuffer[tmpOut..] == old(tmpOutBuffer)[tmpOut..]
    {
      hide Hist, Waits, Dict, Min, Window;
      ghost var x, was := dst[dstPtr..dstPtr + dstSize], tmpOutBuffer;
      WaitsBounds(Dict(), dict == Tmp, tmpOutBuffer, tmpOut, tmpOutSize, tmpOutStart, out);
      if dict != Tmp { CopyInFront(out, tmpOutStart); }
      SameTail(was, tmpOutBuffer, tmpOut, tmpOutStart, tmpOutStart + dstSize);
      GrowDict(dstSize, x, out);
    }

    /** The next bytes of the waiting block already follow the dictionary. */
    method GrowDict(dstSize: nat, ghost x: seq<byte>, ghost out: seq<byte>)
      requires Flushing(out, tmpOutStart) && dict == Tmp && tmpOutStart + dstSize <= tmpOutSize && |x| == dstSize
      requires tmpOut + tmpOutSize <= maxBufferSize
               && x == tmpOutBuffer[tmpOut + tmpOutStart..tmpOut + tmpOutStart + dstSize]
      modifies this`dictSize
      ensures Flushing(out + x, tmpOutStart + dstSize)
    {
      hide Hist, Waits;
      WaitsBounds(Dict(), true, tmpOutBuffer, tmpOut, tmpOutSize, tmpOutStart, out);
      TmpGrows(Dict(), tmpOutBuffer, tmpOut, tmpOutSize, tmpOutStart, out, x);
      dictSize := dictSize + dstSize;
    }

    /** A dictionary that stayed in, or moved to, the caller's buffer serves the waiting block. */
    lemma GrewInDst(d: seq<byte>, inTmp: bool, x: seq<byte>, out: seq<byte>)
      requires Linked() && dict.Dst? && tmpOutSize <= maxBlockSize
               && Waits(d, inTmp, tmpOutBuffer, tmpOut, tmpOutSize, tmpOutStart, out)
      requires tmpOutStart + |x| <= tmpOutSize && tmpOut + tmpOutSize <= maxBufferSize
      requires x == tmpOutBuffer[tmpOut + tmpOutStart..tmpOut + tmpOutStart + |x|]
      requires Hist(Dict(), out + x, Min(KB64, Window(tmpOutSize - tmpOutStart) + |x|))
      requires KB64 <= dictSize || (dictSize == |d| + |x| && (!inTmp || d == []))
      ensures Flushing(out + x, tmpOutStart + |x|)
    {
      hide Hist, Waits, Min, Window;
      DstGrows(d, inTmp, tmpOutBuffer, tmpOut, tmpOutSize, tmpOutStart, out, x, Dict());
    }

    /** Dictionary and new output are joined in the context's own buffer. */
    method JoinInTmp(dst: array<byte>, dstPtr: nat, dstSize: nat, ghost out: seq<byte>)
      requires Idle(out) && dict != Nowhere && dstPtr + dstSize <= dst.Length && dstSize < KB64
      modifies this`tmpOutBuffer, this`dict, this`dictSize
      ensures Idle(out + dst[dstPtr..dstPtr + dstSize]) && dict == Tmp
    {
      hide Hist, Overwrite;
      ghost var x, d := dst[dstPtr..dstPtr + dstSize], Dict();
      var keep := dictSize;
      if dict != Tmp || dictSize + dstSize > maxBufferSize {
        var preserveSize := KB64 - dstSize;
        if preserveSize > dictSize { preserveSize := dictSize; }
        CopyToFront(preserveSize);
        keep := preserveSize;
      }
      HistKeep(d, out, x, if dict != Tmp || dictSize + dstSize > maxBufferSize then keep else |d|);
      assert tmpOutBuffer[..keep] == d[|d| - keep..];
      OverwriteParts(tmpOutBuffer, keep, x);
      tmpOutBuffer := Overwrite(tmpOutBuffer, keep, dst[dstPtr..dstPtr + dstSize]);
      dict, dictSize := Tmp, keep + dstSize;
    }

    /** Its first cases, and then the rest for bytes delivered from the waiting block. */
    method UpdateWaiting(dst: array<byte>, dstPtr: nat, dstSize: nat, bufferStart: nat, ghost out: seq<byte>)
      requires dstPtr + dstSize <= dst.Length && EndsIn(out, dst, bufferStart, dstPtr)
      requires Flushing(out, tmpOutStart) && tmpOutStart + dstSize <= tmpOutSize && tmpOut + tmpOutSize <= maxBufferSize
      requires dst[dstPtr..dstPtr + dstSize] == tmpOutBuffer[tmpOut + tmpOutStart..tmpOut + tmpOutStart + dstSize]
      modifies this`tmpOutBuffer, this`dict, this`dictSize
      ensures Flushing(out + dst[dstPtr..dstPtr + dstSize], tmpOutStart + dstSize)
      ensures tmpOutBuffer[tmpOut..] == old(tmpOutBuffer)[tmpOut..]
      ensures dict.Dst? ==> dict.buffer == dst && dict.start + dictSize == dstPtr + dstSize
    {
      hide Hist, Waits, EndsIn, Min, Window, Dict;
      ghost var x, d, inTmp := dst[dstPtr..dstPtr + dstSize], Dict(), dict == Tmp;
      WaitsBounds(d, inTmp, tmpOutBuffer, tmpOut, tmpOutSize, tmpOutStart, out);
      var done := StaysInDst(dst, dstPtr, dstSize, bufferStart, out, Window(tmpOutSize - tmpOutStart));
      if done {
        GrewInDst(d, inTmp, x, out);
      } else {
        WaitsElsewhere(d, inTmp, dict == Tmp, tmpOutBuffer, tmpOut, tmpOutSize, tmpOutStart, out);
        GrowTmp(dst, dstPtr, dstSize, out);
      }
    }

    /** The same for bytes that went straight to `dst`. */
    method UpdateDirect(dst: array<byte>, dstPtr: nat, dstSize: nat, bufferStart: nat, ghost out: seq<byte>)
      requires dstPtr + dstSize <= dst.Length && EndsIn(out, dst, bufferStart, dstPtr) && Idle(out)
      modifies this`tmpOutBuffer, this`dict, this`dictSize
      ensures Idle(out + dst[dstPtr..dstPtr + dstSize])
      ensures dict.Dst? ==> dict.buffer == dst && dict.start + dictSize == dstPtr + dstSize
    {
      hide Hist, EndsIn, Min;
      var done := StaysInDst(dst, dstPtr, dstSize, bufferStart, out, KB64);
      if done { MinSame(KB64, dstSize); } else { JoinInTmp(dst, dstPtr, dstSize, out); }
    }

    /** LZ4F_updateDict, called once `dstSize` new bytes are at `dstPtr`: from the user's data or
        decoded in place, or (`withinTmp`) delivered from the waiting block. Whatever the case,
        the dictionary remains, or becomes, the end of the output. */
    method UpdateDict(dst: array<byte>, dstPtr: nat, dstSize: nat, bufferStart: nat, withinTmp: bool,
        ghost out: seq<byte>)
      requires dstPtr + dstSize <= dst.Length && EndsIn(out, dst, bufferStart, dstPtr)
      requires !withinTmp ==> Idle(out)
      requires withinTmp ==>
        Flushing(out, tmpOutStart) && tmpOutStart + dstSize <= tmpOutSize && tmpOut + tmpOutSize <= maxBufferSize
      requires withinTmp ==>
        dst[dstPtr..dstPtr + dstSize] == tmpOutBuffer[tmpOut + tmpOutStart..tmpOut + tmpOutStart + dstSize]
      modifies this`tmpOutBuffer, this`dict, this`dictSize
      ensures if withinTmp then Flushing(out + dst[dstPtr..dstPtr + dstSize], tmpOutStart + dstSize)
              else Idle(out + dst[dstPtr..dstPtr + dstSize])
      ensures withinTmp ==> tmpOutBuffer[tmpOut..] == old(tmpOutBuffer)[tmpOut..]
      ensures dict.Dst? ==> dict.buffer == dst && dict.start + dictSize == dstPtr + dstSize
    {
      hide Idle, Flushing, EndsIn;
      if withinTmp {
        UpdateWaiting(dst, dstPtr, dstSize, bufferStart, out);
      } else {
        UpdateDirect(dst, dstPtr, dstSize, bufferStart, out);
      }
    }

    /** New output goes out, and the history follows. */
    method Extend(dst: array<byte>, dstStart: nat, dstPtr: nat, x: seq<byte>, ghost out: seq<byte>, linked: bool)
      requires InBounds() && Clear(dst, dstPtr) && dstPtr + |x| <= dst.Length && EndsIn(out, dst, dstStart, dstPtr)
      requires if linked then Idle(out) else dict == Nowhere
      modifies this`tmpOutBuffer, this`dict, this`dictSize, dst
      ensures InBounds() && Clear(dst, dstPtr + |x|) && EndsIn(out + x, dst, dstStart, dstPtr + |x|)
      ensures dst[dstPtr..dstPtr + |x|] == x && dst[..dstPtr] == old(dst[..dstPtr])
      ensures if linked then Idle(out + x) else dict == Nowhere
    {
      hide Hist, EndsIn;
      Deliver(dst, dstStart, dstPtr, x, out);
      if linked { UpdateDict(dst, dstPtr, |x|, dstStart, false, out); }
    }

    /** The next `n` bytes of the waiting block go out, and the history follows. */
    method DeliverWaiting(dst: array<byte>, dstStart: nat, dstPtr: nat, n: nat, ghost out: seq<byte>, linked: bool)
      returns (ghost x: seq<byte>)
      requires InBounds() && Clear(dst, dstPtr) && dstPtr + n <= dst.Length && EndsIn(out, dst, dstStart, dstPtr)
      requires tmpOutStart + n <= tmpOutSize && tmpOut + tmpOutSize <= maxBufferSize
               && (if linked then Flushing(out, tmpOutStart) else dict == Nowhere)
      modifies this`tmpOutBuffer, this`dict, this`dictSize, dst
      ensures InBounds() && Clear(dst, dstPtr + n) && EndsIn(out + x, dst, dstStart, dstPtr + n)
      ensures |x| == n && dst[dstPtr..dstPtr + n] == x && dst[..dstPtr] == old(dst[..dstPtr])
      ensures tmpOutBuffer[tmpOut..tmpOut + tmpOutSize] == old(tmpOutBuffer[tmpOut..tmpOut + tmpOutSize])
      ensures tmpOutBuffer[tmpOut + tmpOutStart..tmpOut + tmpOutSize]
              == old(tmpOutBuffer[tmpOut + tmpOutStart..tmpOut + tmpOutSize])
      ensures x == tmpOutBuffer[tmpOut + tmpOutStart..tmpOut + tmpOutStart + n]
      ensures if linked then Flushing(out + x, tmpOutStart + n) else dict == Nowhere
    {
      hide Hist, Waits, EndsIn;
      var at := tmpOut + tmpOutStart;
      x := tmpOutBuffer[at..at + n];
      ghost var was := tmpOutBuffer;
      Deliver(dst, dstStart, dstPtr, tmpOutBuffer[at..at + n], out);
      if linked {
        UpdateDict(dst, dstPtr, n, dstStart, true, out);
        SameTail(was, tmpOutBuffer, tmpOut, tmpOutStart, tmpOutStart + n);
        SameTail(was, tmpOutBuffer, tmpOut, 0, tmpOutSize);
        SameTail(was, tmpOutBuffer, tmpOut, tmpOutStart, tmpOutSize);
      }
    }

    /** What LZ4F_decompress does before it returns, when the caller's buffer may not be there
        on the next call: the history is saved in the context's own buffer. */
    method SaveHistory(flushing: bool, ghost out: seq<byte>)
      requires dict != Tmp && if flushing then Flushing(out, tmpOutStart) else Idle(out)
      modifies this`tmpOutBuffer, this`dict, this`dictSize, this`tmpOut
      ensures dict == Tmp && if flushing then Flushing(out, tmpOutStart) else Idle(out)
      ensures flushing ==> tmpOut == old(tmpOut) && tmpOutBuffer[tmpOut..] == old(tmpOutBuffer)[tmpOut..]
    {
      hide Hist, Waits;
      if flushing {
        WaitsBounds(Dict(), false, tmpOutBuffer, tmpOut, tmpOutSize, tmpOutStart, out);
        CopyInFront(out, tmpOutStart);
      } else {
        SaveIdle(out);
      }
    }

    method SaveIdle(ghost out: seq<byte>)
      requires dict != Tmp && Idle(out)
      modifies this`tmpOutBuffer, this`dict, this`dictSize, this`tmpOut
      ensures dict == Tmp && Idle(out)
    {
      hide Hist, Min;
      ghost var d := Dict();
      MinBounds(dictSize, KB64);
      var newDictSize := Min(dictSize, KB64);
      HistCut(d, out, newDictSize);
      CopyToFront(newDictSize);
      assert tmpOutBuffer[..newDictSize] == d[|d| - newDictSize..];
      dict, dictSize, tmpOut := Tmp, newDictSize, newDictSize;
    }
  }

  lemma WaitsBounds(dict: seq<byte>, inTmp: bool, buffer: seq<byte>, at: nat, size: nat, start: nat, out: seq<byte>)
    requires Waits(dict, inTmp, buffer, at, size, start, out)
    ensures start <= size && at + size <= |buffer| && at + start <= |out| && Hist(dict, out, Window(size - start))
    ensures Min(KB64, |out| - start) <= at && (inTmp ==> |dict| == at + start)
            && (!inTmp ==> at + start <= |dict| || KB64 <= |dict|)
  {
  }

  lemma MinBounds(a: nat, b: nat)
    ensures 0 <= Min(a, b) <= a && Min(a, b) <= b && Min(b, a) == Min(a, b)
  {
  }

  lemma MinSame(a: nat, n: nat)
    ensures Min(a, a + n) == a
  {
  }

  /** An empty dictionary may be anywhere. */
  lemma WaitsElsewhere(dict: seq<byte>, inTmp: bool, now: bool, buffer: seq<byte>, at: nat, size: nat, start: nat,
      out: seq<byte>)
    requires Waits(dict, inTmp, buffer, at, size, start, out) && (now == inTmp || (dict == [] && !now))
    ensures Waits(dict, now, buffer, at, size, start, out)
  {
  }

  lemma SameTail(was: seq<byte>, now: seq<byte>, at: nat, i: nat, j: nat)
    requires |was| == |now| && at + j <= |was| && i <= j && was[at..] == now[at..]
    ensures was[at + i..at + j] == now[at + i..at + j]
  {
    assert was[at + i..at + j] == was[at..][i..j];
    assert now[at + i..at + j] == now[at..][i..j];
  }
}
