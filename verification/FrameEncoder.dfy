/**
 LZ4F_compressBegin, LZ4F_compressUpdate, LZ4F_flush and LZ4F_compressEnd: the buffering encoder of
 LZ4 frames.
*/
module FrameEncoder {
  import opened Bytes
  import opened Numbers
  import opened FrameFormat
  import opened FrameHistory

  const LZ4F_BLOCKSIZEID_DEFAULT := 4

  /** LZ4F_preferences_t; a block size ID, content size or dictionary ID of 0 stands for none. */
  datatype Preferences = Preferences(linked: bool, blockChecksum: bool, contentChecksum: bool, blockSizeID: nat,
                                     contentSize: nat, dictID: nat, autoFlush: bool)

  predicate ValidPrefs(p: Preferences) {
    (p.blockSizeID == 0 || 4 <= p.blockSizeID <= 7) && p.contentSize < U64 && p.dictID < U32
  }

  /** The header fields that stand for the preferences. */
  function InfoOf(p: Preferences): (info: FrameInfo)
    requires ValidPrefs(p)
    ensures ValidInfo(info)
  {
    FrameInfo(p.linked, p.blockChecksum, p.contentChecksum,
              if p.blockSizeID == 0 then LZ4F_BLOCKSIZEID_DEFAULT else p.blockSizeID,
              if p.contentSize > 0 then Some(p.contentSize) else None, if p.dictID > 0 then Some(p.dictID) else None)
  }

  datatype Error = GENERIC | dstMaxSize_tooSmall | frameSize_wrong

  datatype LastBlockStatus = notDone | fromTmpBuffer | fromSrcBuffer

  datatype Result = Written(size: nat) | Failed(error: Error)

  // ---------------------------------------------------------------- room

  /** LZ4F_compressBound_internal; the number of blocks is computed in 32 bits. */
  function CompressBoundInternal(srcSize: nat, p: Preferences, alreadyBuffered: nat): nat
    requires ValidPrefs(p)
  {
    var flush := p.autoFlush || srcSize == 0;
    var blockSize := BlockSize(InfoOf(p).blockSizeID);
    var bufferedSize := Min(alreadyBuffered, blockSize - 1);
    var maxSrcSize := srcSize + bufferedSize;
    var nbFullBlocks := maxSrcSize / blockSize % U32;
    var partialBlockSize := maxSrcSize % blockSize;
    var lastBlockSize := if flush then partialBlockSize else 0;
    var nbBlocks := nbFullBlocks + Bit(lastBlockSize > 0);
    (BH_SIZE + BF_SIZE * Bit(p.blockChecksum)) * nbBlocks + blockSize * nbFullBlocks + lastBlockSize + FrameEnd(p)
  }

  /** LZ4F_compressBound: enough whatever is buffered. */
  function CompressBound(srcSize: nat, p: Preferences): nat
    requires ValidPrefs(p)
  {
    CompressBoundInternal(srcSize, p, U64 - 1)
  }

  function FrameEnd(p: Preferences): nat {
    BH_SIZE + BF_SIZE * Bit(p.contentChecksum)
  }

  /** What goes out around the data of a block. */
  function Overhead(p: Preferences): nat {
    BH_SIZE + BF_SIZE * Bit(p.blockChecksum)
  }

  /** The room that blocks of size `id` made of `n` bytes need at most, when none of them shrinks. */
  function Need(n: nat, id: nat, overhead: nat, flush: bool): nat
    requires 4 <= id <= 7
  {
    if n >= BlockSize(id) then overhead + BlockSize(id) + Need(n - BlockSize(id), id, overhead, flush)
    else if flush && n > 0 then overhead + n else 0
  }

  lemma Distribute(a: nat, b: nat, c: nat)
    ensures (a + b) * c == a * c + b * c && c * (a + b) == c * a + c * b
  {
  }

  lemma OneBlockLess(n: nat, id: nat)
    requires 4 <= id <= 7 && n >= BlockSize(id)
    ensures n / BlockSize(id) == (n - BlockSize(id)) / BlockSize(id) + 1
            && n % BlockSize(id) == (n - BlockSize(id)) % BlockSize(id)
  {
    if id == 4 {
      assert n / 0x1_0000 == (n - 0x1_0000) / 0x1_0000 + 1;
    } else if id == 5 {
      assert n / 0x4_0000 == (n - 0x4_0000) / 0x4_0000 + 1;
    } else if id == 6 {
      assert n / 0x10_0000 == (n - 0x10_0000) / 0x10_0000 + 1;
    } else {
      assert n / 0x40_0000 == (n - 0x40_0000) / 0x40_0000 + 1;
    }
  }

  lemma LessThanABlock(n: nat, id: nat)
    requires 4 <= id <= 7 && n < BlockSize(id)
    ensures n / BlockSize(id) == 0 && n % BlockSize(id) == n
  {
  }

  /** `full` blocks, and what a part of a block takes when it is flushed. */
  function Room(full: nat, part: nat, id: nat, overhead: nat, flush: bool): nat
    requires 4 <= id <= 7
  {
    full * (overhead + BlockSize(id)) + if flush && part > 0 then overhead + part else 0
  }

  lemma {:induction false} NeedIs(n: nat, id: nat, overhead: nat, flush: bool)
    requires 4 <= id <= 7
    ensures Need(n, id, overhead, flush) == Room(n / BlockSize(id), n % BlockSize(id), id, overhead, flush)
  {
    hide BlockSize, Room;
    if n >= BlockSize(id) {
      var full, part := (n - BlockSize(id)) / BlockSize(id), (n - BlockSize(id)) % BlockSize(id);
      NeedIs(n - BlockSize(id), id, overhead, flush);
      OneBlockLess(n, id);
      OneMore(full, part, id, overhead, flush);
    } else {
      LessThanABlock(n, id);
      NoneFull(n, id, overhead, flush);
    }
  }

  lemma OneMore(full: nat, part: nat, id: nat, overhead: nat, flush: bool)
    requires 4 <= id <= 7
    ensures Room(full + 1, part, id, overhead, flush)
            == overhead + BlockSize(id) + Room(full, part, id, overhead, flush)
  {
    hide BlockSize;
    Distribute(full, 1, overhead + BlockSize(id));
  }

  lemma NoneFull(part: nat, id: nat, overhead: nat, flush: bool)
    requires 4 <= id <= 7
    ensures Room(0, part, id, overhead, flush) == if flush && part > 0 then overhead + part else 0
  {
  }

  /** The bound leaves room for the blocks, and for the end of the frame behind them. */
  lemma BoundIsEnough(srcSize: nat, p: Preferences, buffered: nat)
    requires ValidPrefs(p) && buffered < BlockSize(InfoOf(p).blockSizeID)
             && (srcSize + buffered) / BlockSize(InfoOf(p).blockSizeID) < U32
    ensures CompressBoundInternal(srcSize, p, buffered)
            >= Need(srcSize + buffered, InfoOf(p).blockSizeID, Overhead(p), p.autoFlush) + FrameEnd(p)
  {
    hide BlockSize, Need, Room, Overhead, FrameEnd;
    var id, n := InfoOf(p).blockSizeID, srcSize + buffered;
    NeedIs(n, id, Overhead(p), p.autoFlush);
    var full, part := n / BlockSize(id), n % BlockSize(id);
    SmallMod(full);
    RoomIs(full, part, srcSize == 0, p);
  }

  lemma SmallMod(n: nat)
    requires n < U32
    ensures n % U32 == n
  {
  }

  lemma RoomIs(full: nat, part: nat, empty: bool, p: Preferences)
    requires ValidPrefs(p)
    ensures var blockSize, last := BlockSize(InfoOf(p).blockSizeID), if p.autoFlush || empty then part else 0;
      (BH_SIZE + BF_SIZE * Bit(p.blockChecksum)) * (full + Bit(last > 0)) + blockSize * full + last
        >= Room(full, part, InfoOf(p).blockSizeID, Overhead(p), p.autoFlush)
  {
    hide BlockSize;
    BoundIs(full, if p.autoFlush || empty then part else 0, BlockSize(InfoOf(p).blockSizeID), Overhead(p));
  }

  lemma BoundIs(full: nat, last: nat, blockSize: nat, overhead: nat)
    ensures overhead * (full + Bit(last > 0)) + blockSize * full
            == full * (overhead + blockSize) + if last > 0 then overhead else 0
  {
    Distribute(full, Bit(last > 0), overhead);
    Distribute(overhead, blockSize, full);
  }

  // ---------------------------------------------------------------- blocks

  /** The bytes of blocks, one after the other. */
  function Joined(info: FrameInfo, blocks: seq<Block>): seq<byte> {
    if blocks == [] then [] else Joined(info, blocks[..|blocks| - 1]) + BlockBytes(info, blocks[|blocks| - 1])
  }

  lemma JoinedOneMore(info: FrameInfo, blocks: seq<Block>, b: Block)
    ensures Joined(info, blocks + [b]) == Joined(info, blocks) + BlockBytes(info, b)
    ensures Content(blocks + [b]) == Content(blocks) + b.content
  {
    hide BlockBytes;
    assert (blocks + [b])[..|blocks|] == blocks;
  }

  /** The blocks up to `k`, and the frame from there on. */
  lemma {:induction false} JoinedThenFrom(info: FrameInfo, blocks: seq<Block>, k: nat)
    requires k <= |blocks|
    ensures Joined(info, blocks[..k]) + From(info, blocks, k) == From(info, blocks, 0)
  {
    hide BlockBytes, Content, Suffix;
    if k > 0 {
      JoinedThenFrom(info, blocks, k - 1);
      assert blocks[..k] == blocks[..k - 1] + [blocks[k - 1]];
      JoinedOneMore(info, blocks[..k - 1], blocks[k - 1]);
    }
  }

  /** A frame is its header, its blocks and its end. */
  lemma FrameOfBlocks(info: FrameInfo, blocks: seq<Block>)
    requires ValidInfo(info)
    ensures FrameBytes(Data(info, blocks))
            == (Header(info) + Joined(info, blocks)) + (LE(0, 4) + Suffix(info, Content(blocks)))
  {
    hide BlockBytes, Content, Suffix, Header, LE;
    JoinedThenFrom(info, blocks, |blocks|);
    assert blocks[..|blocks|] == blocks;
  }

  lemma ValidOneMore(c: Codec, info: FrameInfo, blocks: seq<Block>, b: Block)
    requires ValidInfo(info) && ValidBlocks(c, info, blocks) && ValidBlock(c, info, Content(blocks), b)
    ensures ValidBlocks(c, info, blocks + [b])
  {
    hide ValidBlock, Content;
    var now := blocks + [b];
    forall k | 0 <= k < |now| ensures ValidBlock(c, info, Content(now[..k]), now[k]) {
      assert now[..k] == blocks[..k];
      assert k == |blocks| ==> now[..k] == blocks;
    }
  }

  /** `d` is the end of `s`. */
  predicate Ends(d: seq<byte>, s: seq<byte>) {
    |d| <= |s| && s[|s| - |d|..] == d
  }

  lemma EndsMore(d: seq<byte>, s: seq<byte>, x: seq<byte>)
    requires Ends(d, s)
    ensures Ends(d + x, s + x) && Ends(x, s + x)
  {
  }

  lemma EndsCut(d: seq<byte>, s: seq<byte>, n: nat)
    requires Ends(d, s) && n <= |d|
    ensures Ends(d[|d| - n..], s)
  {
  }

  /** A block compressed with the end of the content as history, or stored as it is. */
  lemma MadeBlock(c: Codec, info: FrameInfo, tables: nat, before: seq<byte>, dict: seq<byte>, src: seq<byte>,
      r: Option<seq<byte>>)
    requires ValidInfo(info) && Compresses(c) && 0 < |src| <= BlockSize(info.blockSizeID)
    requires r == c.compress(tables, dict, src, |src| - 1)
    requires if info.linked then Ends(dict, before) else dict == []
    ensures var b := if r.Some? then Block(false, r.value, src) else Block(true, src, src);
      ValidBlock(c, info, before, b) && |b.data| <= |src|
  {
    hide BlockSize;
    var room := BlockSize(info.blockSizeID);
    if r.Some? {
      var g := if info.linked then before[..|before| - |dict|] else [];
      assert g + dict == History(info, before);
      assert RoundTrips(c, tables, g, dict, src, |src| - 1, room);
    }
  }

  lemma SentLast(out: seq<byte>, dst0: seq<byte>, from: nat, x: seq<byte>, dst: seq<byte>)
    requires from + |x| <= |dst| == |dst0| && dst[from..from + |x|] == x && dst[..from] == dst0[..from]
    ensures SentTo(out, dst0, from, from + |x|, out + x, dst)
  {
  }

  /** The bound for no input leaves room for the largest part of a block that can be buffered. */
  lemma BoundForEnd(p: Preferences)
    requires ValidPrefs(p)
    ensures CompressBound(0, p) == Overhead(p) + BlockSize(InfoOf(p).blockSizeID) - 1 + FrameEnd(p)
    ensures BH_SIZE <= Overhead(p) <= BH_SIZE + BF_SIZE && FrameEnd(p) >= BH_SIZE
  {
    hide BlockSize;
    var id := InfoOf(p).blockSizeID;
    LessThanABlock(BlockSize(id) - 1, id);
  }

  lemma TwoWrites(was: seq<byte>, now: seq<byte>, a: nat, b: nat, c: nat)
    requires a <= b <= c <= |now| == |was| && now[..b] == was[..b]
    ensures now[..a] == was[..a] && now[a..c] == was[a..b] + now[b..c]
  {
    assert now[..a] == now[..b][..a] && was[..a] == was[..b][..a];
    assert now[a..b] == now[..b][a..] && was[a..b] == was[..b][a..];
  }

  // ---------------------------------------------------------------- the context

  /** Where the LZ4 stream's dictionary is: nowhere, in `tmpBuff`, or in a source buffer. */
  datatype Place = Nowhere | Tmp(start: nat) | Src(buffer: array<byte>, start: nat)

  /** LZ4F_cctx, with the dictionary pointer and size of its LZ4 stream. The hash state is
      represented by the bytes it has been fed. The ghost fields are the blocks made, the input
      taken and the bytes written since the frame was begun. */
  class Encoder {
    const codec: Codec
    var prefs: Preferences
    var cStage: nat
    var maxBlockSize: nat
    var maxBufferSize: nat
    var tmpBuff: seq<byte>
    var tmpIn: nat
    var tmpInSize: nat
    var totalInSize: nat
    var xxh: seq<byte>
    var dict: Place
    var dictSize: nat
    ghost var blocks: seq<Block>
    ghost var input: seq<byte>
    ghost var emitted: seq<byte>

    /** LZ4F_createCompressionContext. */
    constructor (codec: Codec)
      ensures cStage == 0 && maxBufferSize <= |tmpBuff| && this.codec == codec
    {
      this.codec := codec;
      prefs := Preferences(true, false, false, 0, 0, 0, false);
      cStage, maxBlockSize, maxBufferSize, tmpBuff, tmpIn, tmpInSize, totalInSize := 0, 0, 0, [], 0, 0, 0;
      xxh, dict, dictSize := [], Nowhere, 0;
      blocks, input, emitted := [], [], [];
    }

    // ------------------------------------------------------------- the stream's dictionary

    ghost function Memory(): set<object>
      reads this`dict
    {
      if dict.Src? then {dict.buffer} else {}
    }

    ghost predicate InBounds()
      reads this`tmpBuff, this`dict, this`dictSize
    {
      match dict
      case Nowhere => dictSize == 0
      case Tmp(start) => start + dictSize <= |tmpBuff|
      case Src(buffer, start) => start + dictSize <= buffer.Length
    }

    ghost function Dict(): (d: seq<byte>)
      requires InBounds()
      reads this`tmpBuff, this`dict, this`dictSize, Memory()
      ensures |d| == dictSize
    {
      match dict
      case Nowhere => []
      case Tmp(start) => tmpBuff[start..start + dictSize]
      case Src(buffer, start) => buffer[start..start + dictSize]
    }

    method ReadDict() returns (d: seq<byte>)
      requires InBounds()
      ensures d == Dict()
    {
      match dict
      case Nowhere => d := [];
      case Tmp(start) => d := tmpBuff[start..start + dictSize];
      case Src(buffer, start) => d := buffer[start..start + dictSize];
    }

    /** What has been written is the start of a valid frame, and the dictionary of the stream is
        the end of its content; a dictionary in `tmpBuff` ends at `at`. */
    ghost predicate Encoded(at: nat)
      reads this`prefs, this`tmpBuff, this`dict, this`dictSize, this`blocks, this`emitted, Memory()
    {
      && ValidPrefs(prefs) && Compresses(codec) && InBounds()
      && ValidBlocks(codec, InfoOf(prefs), blocks) && emitted == Header(InfoOf(prefs)) + Joined(InfoOf(prefs), blocks)
      && (if prefs.linked then Ends(Dict(), Content(blocks))
         && (dict.Tmp? ==> dict.start + dictSize == at) else dict == Nowhere)
    }

    /** Where the compressor reads a block from. */
    ghost predicate Readable(place: Place, size: nat)
      reads this`tmpBuff
    {
      match place
      case Nowhere => false
      case Tmp(start) => start + size <= |tmpBuff|
      case Src(buffer, start) => start + size <= buffer.Length
    }

    ghost function At(place: Place, size: nat): (s: seq<byte>)
      requires Readable(place, size)
      reads this`tmpBuff, if place.Src? then {place.buffer} else {}
      ensures |s| == size
    {
      match place
      case Tmp(start) => tmpBuff[start..start + size]
      case Src(buffer, start) => buffer[start..start + size]
    }

    method Read(place: Place, size: nat) returns (s: seq<byte>)
      requires Readable(place, size)
      ensures s == At(place, size)
    {
      match place
      case Tmp(start) => s := tmpBuff[start..start + size];
      case Src(buffer, start) => s := buffer[start..start + size];
    }

    /** The dictionary ends where the block starts. */
    predicate Follows(place: Place)
      reads this`dict, this`dictSize
    {
      match dict
      case Nowhere => false
      case Tmp(start) => place.Tmp? && start + dictSize == place.start
      case Src(buffer, start) => place.Src? && buffer == place.buffer && start + dictSize == place.start
    }

    /** How many bytes of the dictionary lie behind a block of `size` bytes that ends inside it. */
    function Behind(place: Place, size: nat): (n: nat)
      reads this`dict, this`dictSize
      ensures n < dictSize || n == 0
    {
      if (dict.Tmp? && place.Tmp?) || (dict.Src? && place.Src? && dict.buffer == place.buffer) then
        var end := place.start + size;
        if dict.start < end < dict.start + dictSize then dict.start + dictSize - end else 0
      else 0
    }

    /** Only the last `n` bytes of the dictionary are kept. */
    method KeepLast(n: nat, ghost content: seq<byte>)
      requires InBounds() && Ends(Dict(), content) && n <= dictSize
      modifies this`dict, this`dictSize
      ensures InBounds() && Ends(Dict(), content) && dictSize == n && SameEnd()
    {
      hide Ends;
      EndsCut(Dict(), content, n);
      match dict
      case Nowhere =>
      case Tmp(start) => dict, dictSize := Tmp(start + dictSize - n), n;
      case Src(buffer, start) => dict, dictSize := Src(buffer, start + dictSize - n), n;
    }

    /** Less of the dictionary at most, but it ends where it did. */
    twostate predicate SameEnd()
      reads this`dict, this`dictSize
    {
      match dict
      case Nowhere => old(dict) == Nowhere
      case Tmp(start) => old(dict).Tmp? && start + dictSize == old(dict).start + old(dictSize)
      case Src(buffer, start) =>
        old(dict).Src? && buffer == old(dict).buffer && start + dictSize == old(dict).start + old(dictSize)
    }

    /** What LZ4_compress_fast_continue does to the dictionary before it compresses a block. All of
        it can only leave less of the history: when an index is about to become too large (which
        depends on the whole life of the stream), when the dictionary is too small to be of use, and
        when the block lies over it. */
    method FitDict(place: Place, size: nat, ghost content: seq<byte>)
      requires Readable(place, size) && InBounds() && Ends(Dict(), content)
      modifies this`dict, this`dictSize
      ensures InBounds() && Ends(Dict(), content) && (SameEnd() || (dict == place && dictSize == 0))
    {
      hide Ends;
      var renormalised: bool := *;
      if renormalised && dictSize > KB64 { KeepLast(KB64, content); }
      if 1 <= dictSize < 4 && !Follows(place) {
        EndsCut(Dict(), content, 0);
        dict, dictSize := place, 0;
      }
      var behind := Behind(place, size);
      if behind > 0 {
        behind := if behind > KB64 then KB64 else behind;
        KeepLast(if behind < 4 then 0 else behind, content);
      }
    }

    /** What LZ4_compress_fast_continue does to the dictionary: a block that directly follows it
        extends it, any other block replaces it. */
    method Continue(place: Place, size: nat, ghost content: seq<byte>)
      requires Readable(place, size) && InBounds() && Ends(Dict(), content)
      modifies this`dict, this`dictSize
      ensures InBounds() && Ends(Dict(), content + At(place, size)) && dictSize >= size
      ensures match place
        case Tmp(start) => dict.Tmp? && dict.start + dictSize == start + size
        case Src(buffer, start) => dict.Src? && dict.buffer == buffer
    {
      hide Ends;
      EndsMore(Dict(), content, At(place, size));
      if Follows(place) {
        if place.Tmp? {
          SlicesJoin(tmpBuff, dict.start, place.start, place.start + size);
        } else {
          SlicesJoin(place.buffer[..], dict.start, place.start, place.start + size);
        }
        dictSize := dictSize + size;
      } else {
        dict, dictSize := place, size;
      }
    }

    /** LZ4F_localSaveDict: LZ4_saveDict to the start of `tmpBuff`. */
    method LocalSaveDict(ghost at: nat) returns (realDictSize: nat)
      requires Encoded(at) && prefs.linked && KB64 <= |tmpBuff|
      modifies this`tmpBuff, this`dict, this`dictSize
      ensures Encoded(realDictSize) && dict.Tmp? && realDictSize <= KB64 && (old(dictSize) > 0 ==> realDictSize > 0)
              && |tmpBuff| == old(|tmpBuff|)
    {
      hide Ends, ValidBlocks, Content, Joined, Header, Overwrite;
      realDictSize := if dictSize < KB64 then dictSize else KB64;
      var d := ReadDict();
      EndsCut(d, Content(blocks), realDictSize);
      OverwriteParts(tmpBuff, 0, d[|d| - realDictSize..]);
      tmpBuff := Overwrite(tmpBuff, 0, d[|d| - realDictSize..]);
      dict, dictSize := Tmp(0), realDictSize;
    }

    // ------------------------------------------------------------- a block

    static method Write(dst: array<byte>, at: nat, p: seq<byte>)
      requires at + |p| <= dst.Length
      modifies dst
      ensures dst[at..at + |p|] == p && dst[..at] == old(dst[..at])
    {
      forall i | 0 <= i < |p| { dst[at + i] := p[i]; }
    }

    /** LZ4F_makeBlock: compressed into less than its own size, or else stored. What earlier blocks
        left in the stream's tables may be anything. */
    method MakeBlock(src: seq<byte>, dst: array<byte>, dstPtr: nat, ghost at: nat) returns (next: nat, ghost b: Block)
      requires Encoded(at) && 0 < |src| <= BlockSize(InfoOf(prefs).blockSizeID) && dst !in Memory()
      requires dstPtr + Overhead(prefs) + |src| <= dst.Length
      modifies dst
      ensures ValidBlock(codec, InfoOf(prefs), Content(blocks), b) && b.content == src
      ensures dstPtr <= next <= dstPtr + Overhead(prefs) + |src|
      ensures dst[dstPtr..next] == BlockBytes(InfoOf(prefs), b) && dst[..dstPtr] == old(dst[..dstPtr])
    {
      hide Ends, ValidBlocks, ValidBlock, Content, Joined, Header, Checksum, LE, BlockSize, Compresses;
      var d := ReadDict();
      var tables: nat := *;
      var r := codec.compress(tables, d, src, |src| - 1);
      MadeBlock(codec, InfoOf(prefs), tables, Content(blocks), d, src, r);
      var data := if r.Some? then r.value else src;
      b := Block(r.None?, data, src);
      var cBlock := LE(|data| + (if r.None? then LZ4F_BLOCKUNCOMPRESSED_FLAG else 0), 4) + data;
      if prefs.blockChecksum { cBlock := cBlock + Checksum(data); }
      assert cBlock == BlockBytes(InfoOf(prefs), b);
      Write(dst, dstPtr, cBlock);
      next := dstPtr + |cBlock|;
    }

    /** A block that has been made is part of the frame, and the stream knows it. */
    method Account(place: Place, size: nat, ghost b: Block, ghost x: seq<byte>)
      requires Encoded(tmpIn) && Readable(place, size) && 0 < size && (place.Tmp? ==> place.start == tmpIn)
      requires ValidBlock(codec, InfoOf(prefs), Content(blocks), b) && b.content == At(place, size)
               && x == BlockBytes(InfoOf(prefs), b)
      modifies this`dict, this`dictSize, this`blocks, this`emitted
      ensures Encoded(if place.Tmp? then tmpIn + size else tmpIn) && (prefs.linked ==> dictSize > 0)
      ensures prefs.linked ==> if place.Tmp? then dict.Tmp? else dict.Src? && dict.buffer == place.buffer
      ensures Content(blocks) == old(Content(blocks)) + b.content && emitted == old(emitted) + x
    {
      hide Ends, ValidBlocks, ValidBlock, Content, Joined, Header, BlockBytes, Compresses;
      JoinedOneMore(InfoOf(prefs), blocks, b);
      ValidOneMore(codec, InfoOf(prefs), blocks, b);
      if prefs.linked { Continue(place, size, Content(blocks)); }
      blocks := blocks + [b];
      emitted := emitted + x;
    }

    /** A block, from wherever it is, is made and accounted for. */
    method CompressBlock(place: Place, size: nat, dst: array<byte>, dstPtr: nat) returns (next: nat)
      requires Encoded(tmpIn) && Readable(place, size) && 0 < size <= BlockSize(InfoOf(prefs).blockSizeID)
               && dst !in Memory()
      requires (place.Src? ==> place.buffer != dst) && (place.Tmp? ==> place.start == tmpIn)
      requires dstPtr + Overhead(prefs) + size <= dst.Length
      modifies this`dict, this`dictSize, this`blocks, this`emitted, dst
      ensures Encoded(if place.Tmp? then tmpIn + size else tmpIn) && (prefs.linked ==> dictSize > 0)
      ensures prefs.linked ==> if place.Tmp? then dict.Tmp? else dict.Src? && dict.buffer == place.buffer
      ensures Content(blocks) == old(Content(blocks)) + old(At(place, size))
      ensures dstPtr <= next <= dstPtr + Overhead(prefs) + size
      ensures SentTo(old(emitted), old(dst[..]), dstPtr, next, emitted, dst[..])
    {
      hide Ends, ValidBlocks, ValidBlock, Content, Joined, Header, BlockBytes, BlockSize, Compresses, Overhead;
      var src := Read(place, size);
      if prefs.linked { FitDict(place, size, Content(blocks)); }
      ghost var b;
      next, b := MakeBlock(src, dst, dstPtr, tmpIn);
      Account(place, size, b, dst[dstPtr..next]);
    }

    // ------------------------------------------------------------- what holds between calls

    ghost predicate Sizes()
      reads this`prefs, this`maxBlockSize, this`maxBufferSize, this`tmpBuff, this`tmpIn
    {
      && ValidPrefs(prefs) && maxBlockSize == BlockSize(InfoOf(prefs).blockSizeID) && maxBufferSize <= |tmpBuff|
      && (if prefs.linked then tmpIn <= maxBufferSize && KB64 <= maxBufferSize else tmpIn == 0)
      && (prefs.autoFlush || maxBlockSize + (if prefs.linked then KB128 else 0) <= maxBufferSize)
    }

    /** The content of the blocks made and what is buffered are `all` of the input. */
    ghost predicate Taken(all: seq<byte>)
      reads this`prefs, this`maxBlockSize, this`maxBufferSize, this`tmpBuff, this`tmpIn, this`tmpInSize, this`dict,
          this`dictSize, this`blocks, this`emitted, Memory()
    {
      Encoded(tmpIn) && Sizes() && tmpIn + tmpInSize <= |tmpBuff|
          && all == Content(blocks) + tmpBuff[tmpIn..tmpIn + tmpInSize]
    }

    /** Less than a block is buffered, and there is room to complete it. */
    ghost predicate Buffering()
      reads this`prefs, this`maxBlockSize, this`maxBufferSize, this`tmpIn, this`tmpInSize
    {
      tmpInSize < maxBlockSize && if prefs.autoFlush then tmpInSize == 0 else tmpIn + maxBlockSize <= maxBufferSize
    }

    ghost predicate Counted()
      reads this`prefs, this`xxh, this`totalInSize, this`input
    {
      (prefs.contentChecksum ==> xxh == input) && (prefs.contentSize > 0 ==> totalInSize == |input| % U64)
    }

    /** A frame is being written. */
    ghost predicate Valid()
      reads this, Memory()
    {
      cStage == 1 && Taken(input) && Buffering() && Counted()
    }

    // ------------------------------------------------------------- LZ4F_compressUpdate

    lemma FillParts(buffer: seq<byte>, at: nat, size: nat, x: seq<byte>)
      requires at + size + |x| <= |buffer|
      ensures var now := Overwrite(buffer, at + size, x);
        now[..at] == buffer[..at] && now[at..at + (size + |x|)] == buffer[at..at + size] + x
    {
      OverwriteParts(buffer, at + size, x);
      var now := Overwrite(buffer, at + size, x);
      assert now[..at] == now[..at + size][..at];
      assert now[at..at + size] == now[..at + size][at..];
      SlicesJoin(now, at, at + size, at + size + |x|);
    }

    /** More input is buffered. */
    method StoreTmp(x: seq<byte>, ghost all: seq<byte>)
      requires Taken(all) && tmpIn + tmpInSize + |x| <= |tmpBuff|
      modifies this`tmpBuff, this`tmpInSize
      ensures Taken(all + x) && tmpInSize == old(tmpInSize) + |x|
    {
      hide Ends, ValidBlocks, Content, Joined, Header, BlockSize, Compresses, Overwrite;
      ghost var was, d := tmpBuff, Dict();
      FillParts(tmpBuff, tmpIn, tmpInSize, x);
      OverwriteParts(tmpBuff, tmpIn + tmpInSize, x);
      tmpBuff := Overwrite(tmpBuff, tmpIn + tmpInSize, x);
      tmpInSize := tmpInSize + |x|;
      if dict.Tmp? && prefs.linked {
        assert tmpBuff[dict.start..tmpIn] == tmpBuff[..tmpIn][dict.start..] == was[..tmpIn][dict.start..]
               == was[dict.start..tmpIn];
      }
      assert Dict() == d;
    }

    /** All that is buffered becomes a block. */
    method CompressTmp(dst: array<byte>, dstPtr: nat, ghost all: seq<byte>) returns (next: nat)
      requires Taken(all) && 0 < tmpInSize <= maxBlockSize && tmpIn + tmpInSize <= maxBufferSize
      requires dst !in Memory() && dstPtr + Overhead(prefs) + tmpInSize <= dst.Length
      modifies this`dict, this`dictSize, this`blocks, this`emitted, this`tmpIn, this`tmpInSize, dst
      ensures Taken(all) && tmpInSize == 0 && tmpIn <= old(tmpIn + tmpInSize) && !dict.Src?
              && (prefs.linked ==> dictSize > 0)
      ensures dstPtr <= next <= dstPtr + Overhead(prefs) + old(tmpInSize)
      ensures SentTo(old(emitted), old(dst[..]), dstPtr, next, emitted, dst[..])
    {
      hide Ends, ValidBlocks, Content, Joined, Header, BlockSize, Compresses, Overhead;
      next := CompressBlock(Tmp(tmpIn), tmpInSize, dst, dstPtr);
      if prefs.linked { tmpIn := tmpIn + tmpInSize; }
      tmpInSize := 0;
    }

    /** The dictionary is saved, and buffering goes on behind it. */
    method SaveAndRestart(ghost all: seq<byte>)
      requires Taken(all) && tmpInSize == 0 && prefs.linked && dictSize > 0
      modifies this`tmpBuff, this`dict, this`dictSize, this`tmpIn
      ensures Taken(all) && dict.Tmp? && tmpIn <= KB64
    {
      hide Ends, ValidBlocks, Content, Joined, Header, BlockSize, Compresses;
      var realDictSize := LocalSaveDict(tmpIn);
      assert realDictSize != 0;  // or else LZ4F_ERROR_GENERIC
      tmpIn := realDictSize;
    }

    /** `tmpIn` is completed, and compressed once it holds a block. */
    method CompleteTmp(src: array<byte>, srcPtr: nat, srcSize: nat, dst: array<byte>, dstPtr: nat, ghost dstEnd: nat,
        ghost all: seq<byte>)
      returns (taken: nat, next: nat)
      requires Taken(all) && Buffering() && 0 < tmpInSize && srcPtr + srcSize <= src.Length && dst !in Memory()
               && dst != src
      requires dstPtr + Need(tmpInSize + srcSize, InfoOf(prefs).blockSizeID, Overhead(prefs),
        prefs.autoFlush) <= dstEnd <= dst.Length
      modifies this`tmpBuff, this`dict, this`dictSize, this`blocks, this`emitted, this`tmpIn, this`tmpInSize, dst
      ensures taken <= srcSize && Taken(all + old(src[srcPtr..srcPtr + taken]))
              && SentTo(old(emitted), old(dst[..]), dstPtr, next, emitted, dst[..])
      ensures next + Need(tmpInSize + srcSize - taken, InfoOf(prefs).blockSizeID, Overhead(prefs),
        prefs.autoFlush) <= dstEnd
      ensures if tmpInSize == 0 then !dict.Src? && (prefs.linked ==> dictSize > 0)
              else taken == srcSize && Buffering() && dict == old(dict)
    {
      hide Ends, ValidBlocks, Content, Joined, Header, BlockSize, Compresses, Overhead, SentTo, Encoded;
      var sizeToCopy := maxBlockSize - tmpInSize;
      if sizeToCopy > srcSize {
        StoreTmp(src[srcPtr..srcPtr + srcSize], all);
        SentNothing(emitted, dst[..], dstPtr);
        return srcSize, dstPtr;
      }
      StoreTmp(src[srcPtr..srcPtr + sizeToCopy], all);
      next := CompressTmp(dst, dstPtr, all + src[srcPtr..srcPtr + sizeToCopy]);
      taken := sizeToCopy;
    }

    /** With nothing buffered, all of the input is in the blocks. */
    lemma NothingBuffered(all: seq<byte>)
      requires Taken(all) && tmpInSize == 0
      ensures Encoded(tmpIn) && Sizes() && all == Content(blocks) && ValidPrefs(prefs)
              && maxBlockSize == BlockSize(InfoOf(prefs).blockSizeID)
      ensures !prefs.linked ==> dict == Nowhere
    {
      hide Ends, ValidBlocks, Content, Joined, Header, BlockSize, Compresses;
    }

    lemma AllCompressed(all: seq<byte>)
      requires Encoded(tmpIn) && Sizes() && tmpInSize == 0 && all == Content(blocks)
      ensures Taken(all) && (!prefs.linked ==> dict == Nowhere)
    {
      hide Ends, ValidBlocks, Content, Joined, Header, BlockSize, Compresses;
    }

    lemma AndMore(all: seq<byte>, src: seq<byte>, a: nat, b: nat, c: nat, content: seq<byte>, x: seq<byte>)
      requires a <= b <= c <= |src| && all + src[a..b] == content && x == src[b..c]
      ensures all + src[a..c] == content + x
    {
      SlicesJoin(src, a, b, c);
      assert all + src[a..c] == (all + src[a..b]) + x;
    }

    /** The next block is made straight from the source. */
    method CompressNext(src: array<byte>, start: nat, srcPtr: nat, size: nat, dst: array<byte>, dstPtr: nat,
        ghost all: seq<byte>)
      returns (next: nat)
      requires start <= srcPtr && srcPtr + size <= src.Length && dst !in Memory() && dst != src
      requires Taken(all + src[start..srcPtr]) && tmpInSize == 0 && 0 < size <= maxBlockSize
               && dstPtr + Overhead(prefs) + size <= dst.Length
      modifies this`dict, this`dictSize, this`blocks, this`emitted, dst
      ensures Taken(all + src[start..srcPtr + size])
              && SentTo(old(emitted), old(dst[..]), dstPtr, next, emitted, dst[..])
      ensures dstPtr <= next <= dstPtr + Overhead(prefs) + size
      ensures prefs.linked ==> dict.Src? && dict.buffer == src && dictSize > 0
      ensures !prefs.linked ==> dict == old(dict)
    {
      hide Taken, Encoded, Sizes, Content, BlockSize, Overhead, SentTo;
      ghost var x := src[srcPtr..srcPtr + size];
      NothingBuffered(all + src[start..srcPtr]);
      AndMore(all, src[..], start, srcPtr, srcPtr + size, Content(blocks), x);
      next := CompressBlock(Src(src, srcPtr), size, dst, dstPtr);
      AllCompressed(all + src[start..srcPtr + size]);
    }

    /** The same behind what has gone out before. */
    method CompressOn(src: array<byte>, start: nat, srcPtr: nat, size: nat, dst: array<byte>, at: nat,
        ghost all: seq<byte>, ghost emitted0: seq<byte>, ghost dst0: seq<byte>, ghost dstStart: nat)
      returns (next: nat)
      requires start <= srcPtr && srcPtr + size <= src.Length && dst !in Memory() && dst != src
      requires Taken(all + src[start..srcPtr]) && tmpInSize == 0 && 0 < size <= maxBlockSize
               && at + Overhead(prefs) + size <= dst.Length
      requires SentTo(emitted0, dst0, dstStart, at, emitted, dst[..])
      modifies this`dict, this`dictSize, this`blocks, this`emitted, dst
      ensures Taken(all + src[start..srcPtr + size]) && SentTo(emitted0, dst0, dstStart, next, emitted, dst[..])
      ensures at <= next <= at + Overhead(prefs) + size
      ensures if prefs.linked then dict.Src? && dict.buffer == src && dictSize > 0 else dict == old(dict)
    {
      hide Taken, Overhead, SentTo;
      ghost var emitted1, dst1 := emitted, dst[..];
      next := CompressNext(src, start, srcPtr, size, dst, at, all);
      SentOn(emitted0, dst0, dstStart, at, next, emitted1, dst1, emitted, dst[..]);
    }

    /** Full blocks are compressed straight from the source. */
    method CompressFullBlocks(src: array<byte>, start: nat, srcEnd: nat, dst: array<byte>, dstPtr: nat,
        ghost dstEnd: nat, ghost all: seq<byte>)
      returns (srcPtr: nat, next: nat)
      requires Taken(all) && tmpInSize == 0 && start <= srcEnd <= src.Length && dst !in Memory() && dst != src
               && ValidPrefs(prefs)
      requires maxBlockSize == BlockSize(InfoOf(prefs).blockSizeID)
      requires dstPtr + Need(srcEnd - start, InfoOf(prefs).blockSizeID, Overhead(prefs),
        prefs.autoFlush) <= dstEnd <= dst.Length
      modifies this`dict, this`dictSize, this`blocks, this`emitted, dst
      ensures start <= srcPtr <= srcEnd && Taken(all + src[start..srcPtr]) && srcEnd - srcPtr < maxBlockSize
      ensures next + Need(srcEnd - srcPtr, InfoOf(prefs).blockSizeID, Overhead(prefs), prefs.autoFlush) <= dstEnd
      ensures SentTo(old(emitted), old(dst[..]), dstPtr, next, emitted, dst[..])
      ensures if prefs.linked && srcPtr > start then dict.Src? && dict.buffer == src && dictSize > 0
              else dict == old(dict)
      ensures srcPtr == start ==> dictSize == old(dictSize)
    {
      hide Taken, Overhead, SentTo, BlockSize;
      srcPtr, next := start, dstPtr;
      SentNothing(emitted, dst[..], dstPtr);
      assert all + src[start..start] == all;
      while srcEnd - srcPtr >= maxBlockSize
        invariant start <= srcPtr <= srcEnd && Taken(all + src[start..srcPtr]) && dst !in Memory()
        invariant next + Need(srcEnd - srcPtr, InfoOf(prefs).blockSizeID, Overhead(prefs), prefs.autoFlush) <= dstEnd
        invariant SentTo(old(emitted), old(dst[..]), dstPtr, next, emitted, dst[..])
        invariant if prefs.linked && srcPtr > start then dict.Src? && dict.buffer == src && dictSize > 0
                  else dict == old(dict)
        invariant srcPtr == start ==> dictSize == old(dictSize)
      {
        next := CompressOn(src, start, srcPtr, maxBlockSize, dst, next, all, old(emitted), old(dst[..]), dstPtr);
        srcPtr := srcPtr + maxBlockSize;
      }
    }

    /** Full blocks from the source, and with `autoFlush` the rest as well. */
    method CompressSource(src: array<byte>, start: nat, srcEnd: nat, dst: array<byte>, dstPtr: nat, ghost dstEnd: nat,
        ghost all: seq<byte>)
      returns (srcPtr: nat, next: nat)
      requires Taken(all) && tmpInSize == 0 && start <= srcEnd <= src.Length && dst !in Memory() && dst != src
      requires dstPtr + Need(srcEnd - start, InfoOf(prefs).blockSizeID, Overhead(prefs),
        prefs.autoFlush) <= dstEnd <= dst.Length
      modifies this`dict, this`dictSize, this`blocks, this`emitted, dst
      ensures start <= srcPtr <= srcEnd && Taken(all + src[start..srcPtr]) && srcEnd - srcPtr < maxBlockSize
              && (prefs.autoFlush ==> srcPtr == srcEnd)
      ensures SentTo(old(emitted), old(dst[..]), dstPtr, next, emitted, dst[..]) && next <= dstEnd
      ensures if prefs.linked && srcPtr > start then dict.Src? && dict.buffer == src && dictSize > 0
              else dict == old(dict)
      ensures srcPtr == start ==> dictSize == old(dictSize)
    {
      hide Taken, Overhead, SentTo, BlockSize, Content, Encoded, Sizes;
      NothingBuffered(all);
      srcPtr, next := CompressFullBlocks(src, start, srcEnd, dst, dstPtr, dstEnd, all);
      if prefs.autoFlush && srcPtr < srcEnd {
        next := CompressOn(src, start, srcPtr, srcEnd - srcPtr, dst, next, all, old(emitted), old(dst[..]), dstPtr);
        srcPtr := srcEnd;
      }
    }

    method RestartAtFront(ghost all: seq<byte>)
      requires Taken(all) && tmpInSize == 0 && dict.Src?
      modifies this`tmpIn
      ensures Taken(all) && tmpIn == 0
    {
      hide Ends, ValidBlocks, Content, Joined, Header, BlockSize, Compresses;
      tmpIn := 0;
    }

    /** The dictionary is preserved if necessary, and `tmpIn` kept within limits. */
    method KeepWithin(lastBlockCompressed: LastBlockStatus, stableSrc: bool, ghost all: seq<byte>)
      requires Taken(all) && if lastBlockCompressed == notDone then Buffering()
               else tmpInSize == 0 && (prefs.linked ==> dictSize > 0)
      requires prefs.linked && lastBlockCompressed == fromSrcBuffer ==> dict.Src?
      modifies this`tmpBuff, this`dict, this`dictSize, this`tmpIn
      ensures Taken(all) && Buffering()
      ensures dict.Src? ==> dict == old(dict) && (lastBlockCompressed == fromSrcBuffer ==> stableSrc)
    {
      hide Ends, ValidBlocks, Content, Joined, Header, BlockSize, Compresses;
      if prefs.linked && lastBlockCompressed == fromSrcBuffer {
        if stableSrc { RestartAtFront(all); } else { SaveAndRestart(all); }
      }
      if tmpIn + maxBlockSize > maxBufferSize && !prefs.autoFlush { SaveAndRestart(all); }
    }

    lemma Joins(all: seq<byte>, src: seq<byte>, a: nat, b: nat, c: nat)
      requires a <= b <= c <= |src|
      ensures (all + src[a..b]) + src[b..c] == all + src[a..c]
    {
      SlicesJoin(src, a, b, c);
    }

    /** The blocks that can be made of what is buffered and of the source. */
    method MakeBlocks(src: array<byte>, start: nat, srcEnd: nat, dst: array<byte>, dstStart: nat, ghost dstEnd: nat)
      returns (srcPtr: nat, dstPtr: nat, lastBlockCompressed: LastBlockStatus)
      requires Taken(input) && Buffering() && start <= srcEnd <= src.Length && dst !in Memory() && dst != src
      requires dstStart + Need(tmpInSize + (srcEnd - start), InfoOf(prefs).blockSizeID, Overhead(prefs),
        prefs.autoFlush) <= dstEnd <= dst.Length
      modifies this`tmpBuff, this`dict, this`dictSize, this`blocks, this`emitted, this`tmpIn, this`tmpInSize, dst
      ensures start <= srcPtr <= srcEnd && Taken(input + src[start..srcPtr])
      ensures srcPtr < srcEnd ==> tmpInSize == 0 && !prefs.autoFlush && srcEnd - srcPtr < maxBlockSize
      ensures SentTo(old(emitted), old(dst[..]), dstStart, dstPtr, emitted, dst[..]) && dstPtr <= dstEnd
      ensures if lastBlockCompressed == notDone then Buffering() else tmpInSize == 0 && (prefs.linked ==> dictSize > 0)
      ensures prefs.linked && lastBlockCompressed == fromSrcBuffer ==> dict.Src?
      ensures dict.Src? ==> dict == old(dict) || (lastBlockCompressed == fromSrcBuffer && dict.buffer == src)
    {
      hide Ends, ValidBlocks, Content, Joined, Header, BlockSize, Compresses, Overhead, SentTo, Taken;
      lastBlockCompressed, srcPtr, dstPtr := notDone, start, dstStart;
      SentNothing(emitted, dst[..], dstStart);
      assert input + src[start..start] == input;
      if tmpInSize > 0 {
        var taken;
        taken, dstPtr := CompleteTmp(src, srcPtr, srcEnd - start, dst, dstPtr, dstEnd, input);
        srcPtr := srcPtr + taken;
        if tmpInSize > 0 { return; }
        lastBlockCompressed := fromTmpBuffer;
      }
      ghost var emitted1, dst1, at := emitted, dst[..], dstPtr;
      var before := srcPtr;
      srcPtr, dstPtr := CompressSource(src, before, srcEnd, dst, dstPtr, dstEnd, input + src[start..before]);
      if srcPtr > before { lastBlockCompressed := fromSrcBuffer; }
      SentOn(old(emitted), old(dst[..]), dstStart, at, dstPtr, emitted1, dst1, emitted, dst[..]);
      Joins(input, src[..], start, before, srcPtr);
    }

    /** The blocks, and then what is left of the source. */
    method UpdateBlocks(src: array<byte>, start: nat, srcEnd: nat, dst: array<byte>, dstStart: nat, ghost dstEnd: nat,
        stableSrc: bool)
      returns (dstPtr: nat)
      requires Taken(input) && Buffering() && start <= srcEnd <= src.Length && dst !in Memory() && dst != src
      requires dstStart + Need(tmpInSize + (srcEnd - start), InfoOf(prefs).blockSizeID, Overhead(prefs),
        prefs.autoFlush) <= dstEnd <= dst.Length
      modifies this`tmpBuff, this`dict, this`dictSize, this`blocks, this`emitted, this`tmpIn, this`tmpInSize, dst
      ensures Taken(input + src[start..srcEnd]) && Buffering()
      ensures SentTo(old(emitted), old(dst[..]), dstStart, dstPtr, emitted, dst[..]) && dstPtr <= dstEnd
      ensures dict.Src? ==> dict == old(dict) || (stableSrc && dict.buffer == src)
    {
      hide Ends, ValidBlocks, Content, Joined, Header, BlockSize, Compresses, Overhead, SentTo, Encoded, Need;
      var srcPtr, lastBlockCompressed;
      srcPtr, dstPtr, lastBlockCompressed := MakeBlocks(src, start, srcEnd, dst, dstStart, dstEnd);
      KeepWithin(lastBlockCompressed, stableSrc, input + src[start..srcPtr]);
      if srcPtr < srcEnd {
        StoreTmp(src[srcPtr..srcEnd], input + src[start..srcPtr]);
        Joins(input, src[..], start, srcPtr, srcEnd);
      }
    }

    // ------------------------------------------------------------- the calls

    /** Between any two calls. */
    ghost predicate Usable()
      reads this, Memory()
    {
      ValidPrefs(prefs) && maxBufferSize <= |tmpBuff| && if cStage == 1 then Valid() else tmpInSize == 0
    }

    lemma SumModulo(a: nat, n: nat)
      ensures (a % U64 + n) % U64 == (a + n) % U64
    {
    }

    /** The content checksum and size go on to cover `x`. */
    method CountInput(x: seq<byte>)
      requires Counted()
      modifies this`xxh, this`totalInSize, this`input
      ensures Counted() && input == old(input) + x
    {
      SumModulo(|input|, |x|);
      if prefs.contentChecksum { xxh := xxh + x; }
      totalInSize := (totalInSize + |x|) % U64;
      input := input + x;
    }

    /** Counting changes nothing about the blocks. */
    twostate lemma StillTaken(new all: seq<byte>)
      requires old(Taken(all)) && unchanged(old(Memory()))
      requires unchanged(`prefs, `maxBlockSize, `maxBufferSize, `tmpBuff, `tmpIn, `tmpInSize, `dict, `dictSize, `blocks,
        `emitted)
      ensures Taken(all)
    {
      hide Ends, ValidBlocks, Content, Joined, Header, BlockSize, Compresses;
    }

    method Update(src: array<byte>, start: nat, srcSize: nat, dst: array<byte>, dstStart: nat, ghost dstEnd: nat,
        stableSrc: bool)
      returns (dstPtr: nat)
      requires Valid() && start + srcSize <= src.Length && dst !in Memory() && dst != src
      requires dstStart + Need(tmpInSize + srcSize, InfoOf(prefs).blockSizeID, Overhead(prefs),
        prefs.autoFlush) <= dstEnd <= dst.Length
      modifies this`tmpBuff, this`dict, this`dictSize, this`blocks, this`emitted, this`tmpIn, this`tmpInSize, this`xxh,
               this`totalInSize, this`input, dst
      ensures Valid() && input == old(input) + src[start..start + srcSize]
      ensures SentTo(old(emitted), old(dst[..]), dstStart, dstPtr, emitted, dst[..]) && dstPtr <= dstEnd
      ensures dict.Src? ==> dict == old(dict) || (stableSrc && dict.buffer == src)
    {
      hide Taken, BlockSize, Overhead, SentTo, Need, Counted;
      dstPtr := UpdateBlocks(src, start, start + srcSize, dst, dstStart, dstEnd, stableSrc);
      label made:
      CountInput(src[start..start + srcSize]);
      StillTaken@made(input);
    }

    lemma ValidBounds()
      requires Valid()
      ensures ValidPrefs(prefs) && maxBlockSize == BlockSize(InfoOf(prefs).blockSizeID) && tmpInSize < maxBlockSize
      ensures Usable() && cStage == 1 && (prefs.autoFlush ==> tmpInSize == 0)
    {
      hide Encoded, BlockSize;
    }

    /** LZ4F_compressUpdate: `srcSize` bytes of `src` from `start` on. It fails only when no frame
        was begun, or when less room is offered than LZ4F_compressBound_internal asks for. */
    method CompressUpdate(src: array<byte>, start: nat, srcSize: nat, dst: array<byte>, dstStart: nat, dstCapacity: nat,
        stableSrc: bool)
      returns (r: Result)
      requires Usable() && start + srcSize <= src.Length && dstStart + dstCapacity <= dst.Length && dst !in Memory()
               && dst != src
      requires (srcSize + tmpInSize) / BlockSize(InfoOf(prefs).blockSizeID) < U32
      modifies this`tmpBuff, this`dict, this`dictSize, this`blocks, this`emitted, this`tmpIn, this`tmpInSize, this`xxh,
               this`totalInSize, this`input, dst
      ensures r == Failed(GENERIC) <==> cStage != 1
      ensures r == Failed(dstMaxSize_tooSmall) <==>
        cStage == 1 && dstCapacity < old(CompressBoundInternal(srcSize, prefs, tmpInSize))
      ensures r.Failed? ==> unchanged(this) && unchanged(dst) && r.error != frameSize_wrong
      ensures r.Written? ==> Valid() && input == old(input) + src[start..start + srcSize]
      ensures r.Written? ==> SentTo(old(emitted), old(dst[..]), dstStart, dstStart + r.size, emitted, dst[..])
      ensures r.Written? ==> r.size + FrameEnd(prefs) <= old(CompressBoundInternal(srcSize, prefs, tmpInSize))
      ensures dict.Src? ==> dict == old(dict) || (stableSrc && dict.buffer == src)
    {
      hide Ends, ValidBlocks, Content, Joined, Header, BlockSize, Compresses, Overhead, SentTo, Need,
        CompressBoundInternal, FrameEnd, Taken, Counted;
      if cStage != 1 { return Failed(GENERIC); }
      var bound := CompressBoundInternal(srcSize, prefs, tmpInSize);
      if dstCapacity < bound { return Failed(dstMaxSize_tooSmall); }
      ValidBounds();
      BoundIsEnough(srcSize, prefs, tmpInSize);
      var dstPtr := Update(src, start, srcSize, dst, dstStart, dstStart + bound - FrameEnd(prefs), stableSrc);
      SentBounds(old(emitted), old(dst[..]), dstStart, dstPtr, emitted, dst[..]);
      r := Written(dstPtr - dstStart);
    }

    /** LZ4F_flush. */
    method Flush(dst: array<byte>, dstStart: nat, dstCapacity: nat) returns (r: Result)
      requires Usable() && dstStart + dstCapacity <= dst.Length && dst !in Memory()
      modifies this`tmpBuff, this`dict, this`dictSize, this`blocks, this`emitted, this`tmpIn, this`tmpInSize, dst
      ensures r == Failed(dstMaxSize_tooSmall) <==>
        0 < old(tmpInSize) && dstCapacity < old(tmpInSize) + BH_SIZE + BF_SIZE
      ensures r.Failed? ==> unchanged(this) && unchanged(dst) && r.error == dstMaxSize_tooSmall
      ensures r.Written? ==>
        Usable() && tmpInSize == 0 && SentTo(old(emitted), old(dst[..]), dstStart, dstStart + r.size, emitted, dst[..])
      ensures r.Written? ==> r.size <= if old(tmpInSize) == 0 then 0 else Overhead(prefs) + old(tmpInSize)
      ensures dict.Src? ==> dict == old(dict)
    {
      hide Ends, ValidBlocks, Content, Joined, Header, BlockSize, Compresses, SentTo, Encoded;
      if tmpInSize == 0 {
        SentNothing(emitted, dst[..], dstStart);
        return Written(0);
      }
      assert cStage == 1;  // or else LZ4F_ERROR_GENERIC
      if dstCapacity < tmpInSize + BH_SIZE + BF_SIZE { return Failed(dstMaxSize_tooSmall); }
      var dstPtr := CompressTmp(dst, dstStart, input);
      KeepWithin(fromTmpBuffer, false, input);
      r := Written(dstPtr - dstStart);
    }

    /** Buffers large enough for the preferences. */
    method AllocateTmpBuff()
      requires ValidPrefs(prefs) && maxBufferSize <= |tmpBuff| && maxBlockSize == BlockSize(InfoOf(prefs).blockSizeID)
      modifies this`tmpBuff, this`maxBufferSize, this`tmpIn
      ensures Sizes() && tmpIn == 0
    {
      hide BlockSize;
      var requiredBuffSize := if prefs.autoFlush then (if prefs.linked then KB64 else 0)
                              else maxBlockSize + if prefs.linked then KB128 else 0;
      if maxBufferSize < requiredBuffSize {
        tmpBuff := seq(requiredBuffSize, _ => 0);
        maxBufferSize := requiredBuffSize;
      }
      tmpIn := 0;
    }

    /** The preferences of a new frame, and buffers that are large enough for them. */
    method Configure(p: Preferences)
      requires ValidPrefs(p) && maxBufferSize <= |tmpBuff|
      modifies this`prefs, this`maxBlockSize, this`tmpBuff, this`maxBufferSize, this`tmpIn
      ensures Sizes() && tmpIn == 0 && prefs == p.(blockSizeID := InfoOf(p).blockSizeID)
    {
      hide BlockSize;
      prefs := p.(blockSizeID := if p.blockSizeID == 0 then LZ4F_BLOCKSIZEID_DEFAULT else p.blockSizeID);
      maxBlockSize := BlockSize(prefs.blockSizeID);
      AllocateTmpBuff();
    }

    /** Without a block, the header is all there is. */
    lemma NoBlockYet()
      requires ValidPrefs(prefs) && Compresses(codec) && dict == Nowhere && dictSize == 0
      requires blocks == [] && emitted == Header(InfoOf(prefs))
      ensures Encoded(0) && Content(blocks) == []
    {
      hide Header, Compresses, ValidBlock;
      assert Header(InfoOf(prefs)) + [] == Header(InfoOf(prefs));
    }

    lemma NothingTaken()
      requires cStage == 1 && Encoded(0) && Content(blocks) == [] && Sizes() && tmpIn == tmpInSize == 0
      requires input == [] && xxh == [] && (prefs.contentSize > 0 ==> totalInSize == 0)
      ensures Valid()
    {
      hide Encoded, Content, BlockSize;
      assert tmpBuff[0..0] == [];
    }

    /** No block yet; the LZ4 stream starts without a dictionary. */
    method StartFrame()
      requires Sizes() && tmpIn == 0 && Compresses(codec)
      modifies this`tmpInSize, this`xxh, this`dict, this`dictSize, this`totalInSize, this`cStage, this`blocks,
               this`input, this`emitted
      ensures Valid() && dict == Nowhere && input == [] && tmpInSize == 0 && emitted == Header(InfoOf(prefs))
    {
      hide BlockSize, Header, Compresses, Valid, Encoded;
      tmpInSize, xxh, dict, dictSize := 0, [], Nowhere, 0;
      if prefs.contentSize > 0 { totalInSize := 0; }
      cStage := 1;
      blocks, input, emitted := [], [], Header(InfoOf(prefs));
      NoBlockYet();
      NothingTaken();
    }

    /** The header that goes out: magic number, flags, block size, optional fields, checksum. */
    method FrameHeader() returns (header: seq<byte>)
      requires ValidPrefs(prefs) && prefs.blockSizeID > 0
      ensures header == Header(InfoOf(prefs))
    {
      hide LE, HeaderChecksum;
      var flg := 1 * 64 + (if prefs.linked then 0 else 1) * 32 + (if prefs.blockChecksum then 1 else 0) * 16
                 + (if prefs.contentSize > 0 then 1 else 0) * 8 + (if prefs.contentChecksum then 1 else 0) * 4
                 + if prefs.dictID > 0 then 1 else 0;
      var fields: seq<byte> := [flg, prefs.blockSizeID % 8 * 16];
      if prefs.contentSize > 0 { fields := fields + LE(prefs.contentSize, 8); }
      if prefs.dictID > 0 { fields := fields + LE(prefs.dictID, 4); }
      assert fields == Descriptor(InfoOf(prefs));
      header := LE(LZ4F_MAGICNUMBER, 4) + fields + [HeaderChecksum(fields)];
    }

    /** LZ4F_compressBegin: the header goes out. */
    method CompressBegin(p: Preferences, dst: array<byte>, dstStart: nat, dstCapacity: nat) returns (r: Result)
      requires Usable() && ValidPrefs(p) && Compresses(codec) && dstStart + dstCapacity <= dst.Length
      modifies this, dst
      ensures r == Failed(dstMaxSize_tooSmall) <==> dstCapacity < MAX_FH_SIZE
      ensures r.Failed? ==> unchanged(this) && unchanged(dst) && r.error == dstMaxSize_tooSmall
      ensures r.Written? ==> Valid() && r.size <= MAX_FH_SIZE && dict == Nowhere && input == [] && tmpInSize == 0
      ensures r.Written? ==> InfoOf(prefs) == InfoOf(p) && prefs == p.(blockSizeID := InfoOf(p).blockSizeID)
      ensures r.Written? ==> SentTo([], old(dst[..]), dstStart, dstStart + r.size, emitted, dst[..])
    {
      hide BlockSize, Header, Valid, SentTo, Compresses;
      if dstCapacity < MAX_FH_SIZE { return Failed(dstMaxSize_tooSmall); }
      Configure(p);
      StartFrame();
      assert dst !in Memory();
      var header := FrameHeader();
      HeaderLength(InfoOf(prefs));
      Write(dst, dstStart, header);
      SentLast([], old(dst[..]), dstStart, header, dst[..]);
      assert [] + header == header;
      r := Written(|header|);
    }

    /** End mark and content checksum; nothing is counted as written unless both fit. */
    method WriteEnd(dst: array<byte>, dstPtr: nat, dstCapacity: nat) returns (r: Result)
      requires dstPtr + dstCapacity <= dst.Length
      modifies dst
      ensures r == if dstCapacity < FrameEnd(prefs) then Failed(dstMaxSize_tooSmall) else Written(FrameEnd(prefs))
      ensures dst[..dstPtr] == old(dst[..dstPtr])
      ensures r.Written? ==>
        dst[dstPtr..dstPtr + r.size] == LE(0, 4) + if prefs.contentChecksum then Checksum(xxh) else []
    {
      hide LE, Checksum;
      if dstCapacity < 4 { return Failed(dstMaxSize_tooSmall); }
      Write(dst, dstPtr, LE(0, 4));
      if !prefs.contentChecksum { return Written(4); }
      if dstCapacity < 8 { return Failed(dstMaxSize_tooSmall); }
      ghost var dst1 := dst[..];
      Write(dst, dstPtr + 4, Checksum(xxh));
      TwoWrites(dst1, dst[..], dstPtr, dstPtr + 4, dstPtr + 8);
      r := Written(8);
    }

    /** All that is in the frame when nothing is buffered any more. */
    lemma AllInBlocks()
      requires Valid() && tmpInSize == 0
      ensures Content(blocks) == input && ValidPrefs(prefs) && ValidBlocks(codec, InfoOf(prefs), blocks)
      ensures emitted == Header(InfoOf(prefs)) + Joined(InfoOf(prefs), blocks)
              && (prefs.contentChecksum ==> xxh == input)
      ensures prefs.contentSize > 0 ==> totalInSize == |input| % U64
    {
      hide Content, Joined, Header, ValidBlocks, Ends, BlockSize, Compresses;
    }

    /** What has gone out is a frame, and its blocks hold the input. */
    ghost predicate FrameOfInput()
      reads this`prefs, this`blocks, this`input, this`emitted
    {
      && ValidPrefs(prefs) && ValidBlocks(codec, InfoOf(prefs), blocks)
      && emitted == FrameBytes(Data(InfoOf(prefs), blocks)) && Content(blocks) == input
    }

    /** The context can be used again. */
    method EndFrame(ghost end: seq<byte>)
      requires Usable() && tmpInSize == 0 && end == LE(0, 4) + if prefs.contentChecksum then Checksum(xxh) else []
      modifies this`cStage, this`maxBufferSize, this`emitted
      ensures cStage == 0 && Usable() && emitted == old(emitted) + end
      ensures old(cStage) == 1 ==> FrameOfInput() && (prefs.contentSize > 0 ==> totalInSize == |input| % U64)
    {
      hide Taken, Buffering, Counted, Checksum, LE, ValidBlocks, Content, Joined, Header, FrameBytes;
      if cStage == 1 {
        AllInBlocks();
        FrameOfBlocks(InfoOf(prefs), blocks);
      }
      cStage, maxBufferSize, emitted := 0, 0, emitted + end;
    }

    /** The end of the frame, with nothing buffered. */
    method EndAt(dst: array<byte>, dstPtr: nat, dstCapacity: nat) returns (r: Result)
      requires Usable() && tmpInSize == 0 && dstPtr + dstCapacity <= dst.Length && dst !in Memory()
      modifies this`cStage, this`maxBufferSize, this`emitted, dst
      ensures r == if dstCapacity < FrameEnd(prefs) then Failed(dstMaxSize_tooSmall) else Written(FrameEnd(prefs))
      ensures Usable() && cStage == if r.Failed? then old(cStage) else 0
      ensures r.Written? ==> SentTo(old(emitted), old(dst[..]), dstPtr, dstPtr + r.size, emitted, dst[..])
      ensures r.Written? && old(cStage) == 1 ==>
        FrameOfInput() && (prefs.contentSize > 0 ==> totalInSize == |input| % U64)
    {
      hide Taken, Buffering, Counted, SentTo, FrameEnd, FrameOfInput, Checksum, LE;
      r := WriteEnd(dst, dstPtr, dstCapacity);
      if r.Failed? { return; }
      EndFrame(dst[dstPtr..dstPtr + r.size]);
      SentLast(old(emitted), old(dst[..]), dstPtr, dst[dstPtr..dstPtr + r.size], dst[..]);
    }

    /** LZ4F_compressEnd: what is buffered, the end mark and the checksum. Then what has gone out
        since LZ4F_compressBegin is a frame that holds the input. */
    method CompressEnd(dst: array<byte>, dstStart: nat, dstCapacity: nat) returns (r: Result)
      requires Usable() && dstStart + dstCapacity <= dst.Length && dst !in Memory()
      modifies this`cStage, this`maxBufferSize, this`tmpBuff, this`dict, this`dictSize, this`blocks, this`emitted,
               this`tmpIn, this`tmpInSize, dst
      ensures dstCapacity >= CompressBound(0, prefs) ==> r != Failed(dstMaxSize_tooSmall)
      ensures old(tmpInSize) == 0 && dstCapacity >= FrameEnd(prefs) ==> r != Failed(dstMaxSize_tooSmall)
      ensures if r.Written? then r.size <= dstCapacity else r.error != GENERIC
      ensures Usable() && cStage == if r == Failed(dstMaxSize_tooSmall) then old(cStage) else 0
      ensures r != Failed(dstMaxSize_tooSmall) && old(cStage) == 1 ==>
        FrameOfInput() && (r == Failed(frameSize_wrong) <==>
            prefs.contentSize > 0 && prefs.contentSize != |input| % U64)
      ensures r.Written? ==> old(cStage) == 1 ==>
        SentTo(old(emitted), old(dst[..]), dstStart, dstStart + r.size, emitted, dst[..])
      ensures dict.Src? ==> dict == old(dict)
    {
      hide Valid, SentTo, FrameEnd, Overhead, CompressBound, FrameOfInput, BlockSize;
      BoundForEnd(prefs);
      if cStage == 1 { ValidBounds(); }
      var flushed := Flush(dst, dstStart, dstCapacity);
      if flushed.Failed? { return flushed; }
      SentBounds(old(emitted), old(dst[..]), dstStart, dstStart + flushed.size, emitted, dst[..]);
      ghost var emitted1, dst1, at := emitted, dst[..], dstStart + flushed.size;
      r := EndAt(dst, dstStart + flushed.size, dstCapacity - flushed.size);
      if r.Failed? { return; }
      SentOn(old(emitted), old(dst[..]), dstStart, at, at + r.size, emitted1, dst1, emitted, dst[..]);
      r := if prefs.contentSize > 0 && prefs.contentSize != totalInSize then Failed(frameSize_wrong)
          else Written(flushed.size + r.size);
    }

    /** With the announced size, if any, the frame is valid. */
    lemma FrameIsValid()
      requires FrameOfInput() && (prefs.contentSize > 0 ==> prefs.contentSize == |input|)
      ensures var f := Data(InfoOf(prefs), blocks);
        ValidFrame(codec, f) && emitted == FrameBytes(f) && FrameContent(f) == input
    {
      hide ValidBlocks, FrameBytes, Content;
    }
  }
}
