/**
 Where a decoder stands inside a frame: what it has collected of the next field (`got`), what is
 left of the frame's bytes (`rest`), and what it has delivered (`out`).
*/
module FramePosition {
  import opened Bytes
  import opened Numbers
  import opened FrameFormat
  import opened FrameHeader
  import opened FrameHistory

  // ---------------------------------------------------------------- positions

  /** Before block `k`. */
  predicate BlockAt(c: Codec, f: Frame, k: nat, out: seq<byte>) {
    f.Data? && ValidFrame(c, f) && k <= |f.blocks| && out == Content(f.blocks[..k])
  }

  /** In the header of block `k`, or in the end mark. */
  predicate HeaderAt(c: Codec, f: Frame, k: nat, got: seq<byte>, rest: seq<byte>, out: seq<byte>) {
    BlockAt(c, f, k, out) && |got| <= BH_SIZE && got + rest == From(f.info, f.blocks, k)
  }

  /** In an uncompressed block, with `left` bytes of it to come; `sum` is what its checksum has seen. */
  predicate CopyAt(c: Codec, f: Frame, k: nat, left: nat, sum: seq<byte>, rest: seq<byte>, out: seq<byte>) {
    && f.Data? && ValidFrame(c, f) && k < |f.blocks| && f.blocks[k].raw && 0 < left <= |f.blocks[k].data|
    && var b := f.blocks[k];
       var done := |b.data| - left;
       && rest == b.data[done..] + (BlockCrc(f.info, b) + From(f.info, f.blocks, k + 1))
       && out == Content(f.blocks[..k]) + b.data[..done]
       && (f.info.blockChecksum ==> sum == b.data[..done])
  }

  /** In the checksum of an uncompressed block. */
  predicate CrcAt(c: Codec, f: Frame, k: nat, got: seq<byte>, sum: seq<byte>, rest: seq<byte>, out: seq<byte>) {
    && f.Data? && ValidFrame(c, f) && k < |f.blocks| && f.info.blockChecksum && |got| <= BF_SIZE
       && sum == f.blocks[k].data
    && got + rest == Checksum(sum) + From(f.info, f.blocks, k + 1) && out == Content(f.blocks[..k + 1])
  }

  /** In a compressed block of `target` bytes, checksum included. */
  predicate DataAt(c: Codec, f: Frame, k: nat, target: nat, got: seq<byte>, rest: seq<byte>, out: seq<byte>) {
    && BlockAt(c, f, k, out) && k < |f.blocks| && !f.blocks[k].raw && |got| <= target
    && var whole := f.blocks[k].data + BlockCrc(f.info, f.blocks[k]);
       target == |whole| && got + rest == whole + From(f.info, f.blocks, k + 1)
  }

  /** A decoded block is being delivered. */
  predicate WaitAt(c: Codec, f: Frame, k: nat, content: seq<byte>, start: nat, rest: seq<byte>, out: seq<byte>) {
    && f.Data? && ValidFrame(c, f) && k < |f.blocks| && content == f.blocks[k].content && start <= |content|
    && rest == From(f.info, f.blocks, k + 1) && out == Content(f.blocks[..k]) + content[..start]
  }

  /** After the end mark. */
  predicate SuffixAt(c: Codec, f: Frame, k: nat, got: seq<byte>, rest: seq<byte>, out: seq<byte>) {
    BlockAt(c, f, k, out) && k == |f.blocks| && got + rest == Suffix(f.info, out)
  }

  /** In a frame header, or in the magic number and size of a skippable frame. */
  predicate StartAt(c: Codec, f: Frame, got: seq<byte>, rest: seq<byte>) {
    ValidFrame(c, f) && got + rest == FrameBytes(f)
  }

  predicate SizeAt(f: Frame, got: seq<byte>, rest: seq<byte>) {
    f.Skippable? && |f.payload| < U32 && |got| <= 4 && got + rest == LE(|f.payload|, 4) + f.payload
  }

  // ---------------------------------------------------------------- collecting

  lemma Collect(got: seq<byte>, rest: seq<byte>, n: nat)
    requires n <= |rest|
    ensures (got + rest[..n]) + rest[n..] == got + rest
  {
    assert rest == rest[..n] + rest[n..];
  }

  lemma NoneCollected(rest: seq<byte>)
    ensures [] + rest == rest
  {
  }

  lemma Split(a: seq<byte>, b: seq<byte>, x: seq<byte>, y: seq<byte>)
    requires a + b == x + y && |a| == |x|
    ensures a == x && b == y
  {
    assert (a + b)[..|a|] == a && (a + b)[|a|..] == b;
  }

  /** There is always a block header or an end mark to come. */
  lemma HeaderCollects(c: Codec, f: Frame, k: nat, got: seq<byte>, rest: seq<byte>, out: seq<byte>, n: nat)
    requires HeaderAt(c, f, k, got, rest, out) && |got| + n <= BH_SIZE
    ensures n <= |rest| && HeaderAt(c, f, k, got + rest[..n], rest[n..], out)
  {
    hide Content, ValidFrame, BlockCrc, Suffix;
    assert |From(f.info, f.blocks, k)| >= BH_SIZE;
    Collect(got, rest, n);
  }

  lemma CrcCollects(c: Codec, f: Frame, k: nat, got: seq<byte>, sum: seq<byte>, rest: seq<byte>, out: seq<byte>, n: nat)
    requires CrcAt(c, f, k, got, sum, rest, out) && |got| + n <= BF_SIZE
    ensures n <= |rest| && CrcAt(c, f, k, got + rest[..n], sum, rest[n..], out)
  {
    hide Content, ValidFrame, From, Checksum;
    assert |got + rest| >= BF_SIZE;
    Collect(got, rest, n);
  }

  lemma DataCollects(c: Codec, f: Frame, k: nat, target: nat, got: seq<byte>, rest: seq<byte>, out: seq<byte>, n: nat)
    requires DataAt(c, f, k, target, got, rest, out) && |got| + n <= target
    ensures n <= |rest| && DataAt(c, f, k, target, got + rest[..n], rest[n..], out)
  {
    hide Content, ValidFrame, From, BlockCrc;
    assert |got + rest| >= target;
    Collect(got, rest, n);
  }

  lemma SuffixCollects(c: Codec, f: Frame, k: nat, got: seq<byte>, rest: seq<byte>, out: seq<byte>, n: nat)
    requires SuffixAt(c, f, k, got, rest, out) && f.info.contentChecksum && |got| + n <= BF_SIZE
    ensures n <= |rest| && SuffixAt(c, f, k, got + rest[..n], rest[n..], out)
  {
    hide Content, ValidFrame, From, Checksum;
    assert |got + rest| >= BF_SIZE;
    Collect(got, rest, n);
  }

  lemma StartCollects(c: Codec, f: Frame, got: seq<byte>, rest: seq<byte>, n: nat)
    requires StartAt(c, f, got, rest) && n <= |rest|
    ensures StartAt(c, f, got + rest[..n], rest[n..])
  {
    Collect(got, rest, n);
  }

  lemma SizeCollects(f: Frame, got: seq<byte>, rest: seq<byte>, n: nat)
    requires SizeAt(f, got, rest) && |got| + n <= 4
    ensures n <= |rest| && SizeAt(f, got + rest[..n], rest[n..])
  {
    hide LE;
    assert |got + rest| >= 4;
    Collect(got, rest, n);
  }

  // ---------------------------------------------------------------- from field to field

  lemma BlockIs(c: Codec, f: Frame, k: nat)
    requires f.Data? && ValidFrame(c, f) && k < |f.blocks|
    ensures ValidInfo(f.info) && ValidBlock(c, f.info, Content(f.blocks[..k]), f.blocks[k])
  {
  }

  lemma CrcSize(info: FrameInfo, b: Block)
    ensures |BlockCrc(info, b)| == if info.blockChecksum then BF_SIZE else 0
  {
    hide Checksum;
  }

  lemma HeaderIsEnd(c: Codec, f: Frame, k: nat, got: seq<byte>, rest: seq<byte>, out: seq<byte>)
    requires HeaderAt(c, f, k, got, rest, out) && |got| == BH_SIZE && k == |f.blocks|
    ensures ReadLE(got) == 0 && SuffixAt(c, f, k, [], rest, out)
  {
    hide ReadLE, LE, Suffix, Content, ValidFrame;
    assert f.blocks[..k] == f.blocks;
    Split(got, rest, LE(0, 4), Suffix(f.info, Content(f.blocks)));
    ReadLE32RoundTrip(0);
    NoneCollected(rest);
  }

  lemma HeaderIsBlock(c: Codec, f: Frame, k: nat, got: seq<byte>, rest: seq<byte>, out: seq<byte>)
    requires HeaderAt(c, f, k, got, rest, out) && |got| == BH_SIZE && k < |f.blocks|
    ensures var b := f.blocks[k];
      && got == BlockHeader(b) && rest == (b.data + BlockCrc(f.info, b)) + From(f.info, f.blocks, k + 1)
  {
    hide BlockHeader, BlockCrc, Content, ValidFrame;
    var b, tail := f.blocks[k], From(f.info, f.blocks, k + 1);
    assert got + rest == BlockHeader(b) + ((b.data + BlockCrc(f.info, b)) + tail);
    Split(got, rest, BlockHeader(b), (b.data + BlockCrc(f.info, b)) + tail);
  }

  lemma StartsRaw(c: Codec, f: Frame, k: nat, rest: seq<byte>, out: seq<byte>)
    requires BlockAt(c, f, k, out) && k < |f.blocks| && f.blocks[k].raw
    requires rest == (f.blocks[k].data + BlockCrc(f.info, f.blocks[k])) + From(f.info, f.blocks, k + 1)
    ensures |f.blocks[k].data| > 0 && CopyAt(c, f, k, |f.blocks[k].data|, [], rest, out)
  {
    hide BlockCrc, Content, From, ValidFrame;
    var b, tail := f.blocks[k], From(f.info, f.blocks, k + 1);
    BlockIs(c, f, k);
    assert rest == b.data + (BlockCrc(f.info, b) + tail);
    assert b.data[0..] == b.data && b.data[..0] == [] && out + [] == out;
  }

  /** A complete block header tells what follows it. */
  lemma HeaderDecodes(c: Codec, f: Frame, k: nat, got: seq<byte>, rest: seq<byte>, out: seq<byte>)
    requires HeaderAt(c, f, k, got, rest, out) && |got| == BH_SIZE
    ensures var size, raw := ReadLE(got) % LZ4F_BLOCKUNCOMPRESSED_FLAG, ReadLE(got) >= LZ4F_BLOCKUNCOMPRESSED_FLAG;
      if size == 0 then SuffixAt(c, f, k, [], rest, out)
      else && ValidInfo(f.info) && size <= BlockSize(f.info.blockSizeID)
           && if raw then CopyAt(c, f, k, size, [], rest, out)
              else DataAt(c, f, k, size + if f.info.blockChecksum then BF_SIZE else 0, [], rest, out)
  {
    hide ReadLE, LE, BlockHeader, Suffix, BlockCrc, Content, From, CopyAt, SuffixAt, ValidFrame;
    NoneCollected(rest);
    if k == |f.blocks| {
      HeaderIsEnd(c, f, k, got, rest, out);
    } else {
      HeaderIsBlock(c, f, k, got, rest, out);
      BlockIs(c, f, k);
      BlockHeaderRead(f.blocks[k]);
      CrcSize(f.info, f.blocks[k]);
      if f.blocks[k].raw { StartsRaw(c, f, k, rest, out); }
    }
  }

  lemma ChunkOf(data: seq<byte>, done: nat, n: nat)
    requires done + n <= |data|
    ensures data[..done] + data[done..done + n] == data[..done + n] && data[done..][..n] == data[done..done + n]
    ensures data[done..][n..] == data[done + n..]
    ensures done + n == |data| ==> data[..done + n] == data && data[done + n..] == []
  {
  }

  lemma NextOf(x: seq<byte>, y: seq<byte>, n: nat)
    requires n <= |x|
    ensures (x + y)[..n] == x[..n] && (x + y)[n..] == x[n..] + y
  {
  }

  /** The next `n` bytes of an uncompressed block. */
  lemma CopyNext(c: Codec, f: Frame, k: nat, left: nat, sum: seq<byte>, rest: seq<byte>, out: seq<byte>, n: nat)
    requires CopyAt(c, f, k, left, sum, rest, out) && n <= left
    ensures n <= |rest| && out + rest[..n] <= Content(f.blocks)
    ensures n < left ==> CopyAt(c, f, k, left - n, sum + rest[..n], rest[n..], out + rest[..n])
    ensures n == left && f.info.blockChecksum ==> CrcAt(c, f, k, [], sum + rest[..n], rest[n..], out + rest[..n])
    ensures n == left && !f.info.blockChecksum ==> HeaderAt(c, f, k + 1, [], rest[n..], out + rest[..n])
  {
    hide Content, From, Checksum, ValidFrame;
    var b, tail := f.blocks[k], From(f.info, f.blocks, k + 1);
    var done := |b.data| - left;
    BlockIs(c, f, k);
    NextOf(b.data[done..], BlockCrc(f.info, b) + tail, n);
    ChunkOf(b.data, done, n);
    assert out + rest[..n] == Content(f.blocks[..k]) + b.data[..done + n];
    ContentOneMore(f.blocks, k);
    ContentPrefix(f.blocks, k + 1);
    PrefixOfBlock(Content(f.blocks[..k]), b.data, done + n, Content(f.blocks[..k + 1]), Content(f.blocks));
    NoneCollected(rest[n..]);
    NoneCollected(BlockCrc(f.info, b) + tail);
    NoneCollected(tail);
  }

  lemma CopyBounds(c: Codec, f: Frame, k: nat, left: nat, sum: seq<byte>, rest: seq<byte>, out: seq<byte>)
    requires CopyAt(c, f, k, left, sum, rest, out)
    ensures 0 < left && ValidFrame(c, f)
  {
  }

  /** Without block checksums the sum does not matter. */
  lemma CopySum(c: Codec, f: Frame, k: nat, left: nat, sum: seq<byte>, now: seq<byte>, rest: seq<byte>, out: seq<byte>)
    requires CopyAt(c, f, k, left, sum, rest, out) && (f.info.blockChecksum ==> now == sum)
    ensures CopyAt(c, f, k, left, now, rest, out)
  {
  }

  lemma PrefixOfBlock(before: seq<byte>, data: seq<byte>, n: nat, after: seq<byte>, all: seq<byte>)
    requires n <= |data| && after == before + data && after <= all
    ensures before + data[..n] <= all
  {
  }

  lemma DataBounds(c: Codec, f: Frame, k: nat, target: nat, got: seq<byte>, rest: seq<byte>, out: seq<byte>)
    requires DataAt(c, f, k, target, got, rest, out)
    ensures ValidFrame(c, f) && 0 < target && |got| <= target
  {
    hide Content, From, ValidInfo, ValidBlocks;
    BlockIs(c, f, k);
  }

  /** The end mark is always to come. */
  lemma FromLength(info: FrameInfo, blocks: seq<Block>, k: nat)
    requires k <= |blocks|
    ensures |From(info, blocks, k)| >= BH_SIZE
  {
    hide Content, BlockCrc, Suffix;
  }

  lemma DataLeft(c: Codec, f: Frame, k: nat, target: nat, got: seq<byte>, rest: seq<byte>, out: seq<byte>)
    requires DataAt(c, f, k, target, got, rest, out)
    ensures rest != []
  {
    hide Content, From, BlockCrc, ValidFrame;
    FromLength(f.info, f.blocks, k + 1);
    var whole := f.blocks[k].data + BlockCrc(f.info, f.blocks[k]);
    assert |got + rest| == |whole + From(f.info, f.blocks, k + 1)|;
  }

  lemma WaitLeft(c: Codec, f: Frame, k: nat, content: seq<byte>, start: nat, rest: seq<byte>, out: seq<byte>)
    requires WaitAt(c, f, k, content, start, rest, out)
    ensures rest != []
  {
    hide Content, From, ValidFrame;
    FromLength(f.info, f.blocks, k + 1);
  }

  // ---------------------------------------------------------------- a prefix of the content

  lemma BlockPrefix(c: Codec, f: Frame, k: nat, n: nat)
    requires f.Data? && k < |f.blocks| && n <= |f.blocks[k].content|
    ensures Content(f.blocks[..k]) + f.blocks[k].content[..n] <= Content(f.blocks)
  {
    hide Content;
    ContentOneMore(f.blocks, k);
    ContentPrefix(f.blocks, k + 1);
    PrefixOfBlock(Content(f.blocks[..k]), f.blocks[k].content, n, Content(f.blocks[..k + 1]), Content(f.blocks));
  }

  lemma HeaderPrefix(c: Codec, f: Frame, k: nat, got: seq<byte>, rest: seq<byte>, out: seq<byte>)
    requires HeaderAt(c, f, k, got, rest, out)
    ensures out <= FrameContent(f)
  {
    hide Content, From, ValidFrame;
    ContentPrefix(f.blocks, k);
  }

  lemma CopyPrefix(c: Codec, f: Frame, k: nat, left: nat, sum: seq<byte>, rest: seq<byte>, out: seq<byte>)
    requires CopyAt(c, f, k, left, sum, rest, out)
    ensures out <= FrameContent(f)
  {
    hide Content, From, BlockCrc;
    BlockIs(c, f, k);
    BlockPrefix(c, f, k, |f.blocks[k].data| - left);
  }

  lemma CrcPrefix(c: Codec, f: Frame, k: nat, got: seq<byte>, sum: seq<byte>, rest: seq<byte>, out: seq<byte>)
    requires CrcAt(c, f, k, got, sum, rest, out)
    ensures out <= FrameContent(f)
  {
    hide Content, From, ValidFrame, Checksum;
    ContentPrefix(f.blocks, k + 1);
  }

  lemma DataPrefix(c: Codec, f: Frame, k: nat, target: nat, got: seq<byte>, rest: seq<byte>, out: seq<byte>)
    requires DataAt(c, f, k, target, got, rest, out)
    ensures out <= FrameContent(f)
  {
    hide Content, From, ValidFrame, BlockCrc;
    ContentPrefix(f.blocks, k);
  }

  lemma WaitPrefix(c: Codec, f: Frame, k: nat, content: seq<byte>, start: nat, rest: seq<byte>, out: seq<byte>)
    requires WaitAt(c, f, k, content, start, rest, out)
    ensures out <= FrameContent(f)
  {
    hide Content, From, ValidFrame;
    BlockPrefix(c, f, k, start);
  }

  lemma SuffixPrefix(c: Codec, f: Frame, k: nat, got: seq<byte>, rest: seq<byte>, out: seq<byte>)
    requires SuffixAt(c, f, k, got, rest, out)
    ensures out <= FrameContent(f)
  {
    hide Content, From, ValidFrame, Suffix;
    ContentPrefix(f.blocks, k);
  }

  lemma CrcDone(c: Codec, f: Frame, k: nat, got: seq<byte>, sum: seq<byte>, rest: seq<byte>, out: seq<byte>)
    requires CrcAt(c, f, k, got, sum, rest, out) && |got| == BF_SIZE
    ensures got == Checksum(sum) && HeaderAt(c, f, k + 1, [], rest, out)
  {
    hide Content, From, Checksum;
    Split(got, rest, Checksum(sum), From(f.info, f.blocks, k + 1));
    NoneCollected(rest);
  }

  /** A complete compressed block: its checksum is right and it decodes. */
  lemma DataDone(c: Codec, f: Frame, k: nat, target: nat, got: seq<byte>, rest: seq<byte>, out: seq<byte>)
    requires DataAt(c, f, k, target, got, rest, out) && |got| == target && Decodes(c)
    ensures ValidInfo(f.info) && target >= if f.info.blockChecksum then BF_SIZE else 0
    ensures var n, cap := target - (if f.info.blockChecksum then BF_SIZE else 0), BlockSize(f.info.blockSizeID);
      && (f.info.blockChecksum ==> got[n..] == Checksum(got[..n]))
      && c.decode(History(f.info, out), got[..n], cap).Some?
      && var content := c.decode(History(f.info, out), got[..n], cap).value;
         |content| <= cap && WaitAt(c, f, k, content, 0, rest, out) && out + content <= Content(f.blocks)
  {
    hide Content, From, Checksum;
    var b := f.blocks[k];
    BlockIs(c, f, k);
    CrcSize(f.info, b);
    Split(got, rest, b.data + BlockCrc(f.info, b), From(f.info, f.blocks, k + 1));
    assert got[..|b.data|] == b.data && got[|b.data|..] == BlockCrc(f.info, b);
    ContentOneMore(f.blocks, k);
    ContentPrefix(f.blocks, k + 1);
    assert out + b.content[..0] == out;
  }

  /** The next `n` bytes of a decoded block. */
  lemma WaitNext(c: Codec, f: Frame, k: nat, content: seq<byte>, start: nat, rest: seq<byte>, out: seq<byte>, n: nat)
    requires WaitAt(c, f, k, content, start, rest, out) && start + n <= |content|
    ensures WaitAt(c, f, k, content, start + n, rest, out + content[start..start + n])
    ensures start + n == |content| ==> HeaderAt(c, f, k + 1, [], rest, out + content[start..start + n])
  {
    hide Content, From, ValidFrame;
    ChunkOf(content, start, n);
    ContentOneMore(f.blocks, k);
    assert out + content[start..start + n] == Content(f.blocks[..k]) + content[..start + n];
    NoneCollected(rest);
  }

  /** The end of the frame. */
  lemma SuffixDone(c: Codec, f: Frame, k: nat, got: seq<byte>, rest: seq<byte>, out: seq<byte>)
    requires SuffixAt(c, f, k, got, rest, out) && |got| == if f.info.contentChecksum then BF_SIZE else 0
    ensures rest == [] && out == FrameContent(f) && (f.info.contentChecksum ==> got == Checksum(out))
  {
    hide Content, From, Checksum;
    assert f.blocks[..k] == f.blocks;
    Split(got, rest, Suffix(f.info, out), []);
  }

  lemma SizeDone(f: Frame, got: seq<byte>, rest: seq<byte>)
    requires SizeAt(f, got, rest) && |got| == 4
    ensures ReadLE(got) == |rest| && rest == f.payload
  {
    hide LE;
    Split(got, rest, LE(|f.payload|, 4), f.payload);
    ReadLE32RoundTrip(|f.payload|);
  }

  /** At the end mark, everything the header announced has been decoded. */
  lemma SizeIsRight(c: Codec, f: Frame, k: nat, got: seq<byte>, rest: seq<byte>, out: seq<byte>)
    requires SuffixAt(c, f, k, got, rest, out)
    ensures f.info.contentSize.Some? && f.info.contentSize.value > 0 ==> |out| == f.info.contentSize.value
  {
    hide Content, ValidBlocks, Checksum;
    assert f.blocks[..k] == f.blocks;
  }

  lemma SizeIsSkippable(f: Frame, got: seq<byte>, rest: seq<byte>)
    requires SizeAt(f, got, rest)
    ensures f.Skippable? && FrameContent(f) == []
  {
  }

  lemma AfterMagic(was: seq<byte>, x: seq<byte>, now: seq<byte>)
    requires now == was + x && |was| >= 4
    ensures now[4..] == was[4..] + x
  {
  }

  lemma HeaderIsData(c: Codec, f: Frame, k: nat, got: seq<byte>, rest: seq<byte>, out: seq<byte>)
    requires HeaderAt(c, f, k, got, rest, out)
    ensures f.Data? && ValidFrame(c, f)
  {
  }

  lemma StartBounds(c: Codec, f: Frame, got: seq<byte>, rest: seq<byte>)
    requires StartAt(c, f, got, rest)
    ensures ValidFrame(c, f) && |got| + |rest| == |FrameBytes(f)| && StartsWith(got, FrameBytes(f))
            && (got == [] ==> rest == FrameBytes(f))
    ensures |FrameBytes(f)| >= 8
            && (f.Data? ==>
               ValidInfo(f.info) && |FrameBytes(f)| >= HeaderSize(f.info) + BH_SIZE
                   && HeaderSize(f.info) <= MAX_FH_SIZE)
  {
    hide FrameBytes, ValidBlocks, Content;
    FrameStart(f);
    var whole := FrameBytes(f);
    assert (got + rest)[..|got|] == got;
    if got == [] { NoneCollected(rest); }
  }

  lemma StartToBlocks(c: Codec, f: Frame, got: seq<byte>, rest: seq<byte>)
    requires StartAt(c, f, got, rest) && f.Data? && |got| == HeaderSize(f.info)
    ensures HeaderAt(c, f, 0, [], rest, [])
  {
    hide FrameBytes, ValidBlocks, From;
    FrameStart(f);
    ContentNone(f.blocks);
    assert (got + rest)[|got|..] == rest;
    NoneCollected(rest);
  }

  lemma StartToSize(c: Codec, f: Frame, got: seq<byte>, rest: seq<byte>)
    requires StartAt(c, f, got, rest) && f.Skippable? && 4 <= |got| <= 8
    ensures SizeAt(f, got[4..], rest)
  {
    hide FrameBytes, LE;
    FrameStart(f);
    assert (got + rest)[4..] == got[4..] + rest;
  }
}
