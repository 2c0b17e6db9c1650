/**
 The LZ4 frame format, version 1.6.1, as bytes: a header, blocks, an end mark and an optional
 checksum, or a skippable frame.
*/
module FrameFormat {
  import opened Bytes
  import opened Numbers
  import Xxh32

  const BH_SIZE := 4
  const BF_SIZE := 4
  const MIN_FH_SIZE := 7
  const MAX_FH_SIZE := 19
  const LZ4F_BLOCKUNCOMPRESSED_FLAG := 0x8000_0000
  const LZ4F_MAGICNUMBER := 0x184D2204
  const LZ4F_MAGIC_SKIPPABLE_START := 0x184D2A50

  // ---------------------------------------------------------------- numbers

  function LE(n: nat, size: nat): (p: seq<byte>)
    ensures |p| == size
  {
    if size == 0 then [] else [n % 256] + LE(n / 256, size - 1)
  }

  lemma {:induction false} ReadLERoundTrip(n: nat, size: nat)
    requires n < Pow256(size)
    ensures ReadLE(LE(n, size)) == n
  {
    if size > 0 {
      ReadLERoundTrip(n / 256, size - 1);
      assert LE(n, size)[1..] == LE(n / 256, size - 1);
    }
  }

  lemma ReadLE32RoundTrip(n: nat)
    requires n < U32
    ensures ReadLE(LE(n, 4)) == n
  {
    PowersOf256();
    ReadLERoundTrip(n, 4);
  }

  lemma ReadLE64RoundTrip(n: nat)
    requires n < U64
    ensures ReadLE(LE(n, 8)) == n
  {
    PowersOf256();
    ReadLERoundTrip(n, 8);
  }

  // ---------------------------------------------------------------- codecs

  /** The block codec, with the preceding output as history: what compressing into a given
      capacity gives, if it fits, in each state the tables of the stream can be in; and what
      decompressing into a given capacity gives. */
  datatype Codec = Codec(compress: (nat, seq<byte>, seq<byte>, nat) -> Option<seq<byte>>,
                         decode: (seq<byte>, seq<byte>, nat) -> Option<seq<byte>>)

  function Last(s: seq<byte>, n: nat): seq<byte> {
    if |s| <= n then s else s[|s| - n..]
  }

  /** Decoding looks back 64 KB at the most. */
  ghost predicate Decodes(c: Codec) {
    && (forall h: seq<byte>, x: seq<byte>, cap: nat :: c.decode(h, x, cap) == c.decode(Last(h, KB64), x, cap))
    && (forall h: seq<byte>, x: seq<byte>, cap: nat :: c.decode(h, x, cap).Some? ==> |c.decode(h, x, cap).value| <= cap)
  }

  /** A block that was compressed decodes with the same history, or a longer one, given enough
      room, up to the largest block size. */
  ghost predicate Compresses(c: Codec) {
    forall tables: nat, g: seq<byte>, h: seq<byte>, s: seq<byte>, cap: nat, room: nat ::
      RoundTrips(c, tables, g, h, s, cap, room)
  }

  predicate RoundTrips(c: Codec, tables: nat, g: seq<byte>, h: seq<byte>, s: seq<byte>, cap: nat, room: nat) {
    var r := c.compress(tables, h, s, cap);
    r.Some? && |s| <= room <= 0x40_0000 ==> 0 < |r.value| <= cap && c.decode(g + h, r.value, room) == Some(s)
  }

  // ---------------------------------------------------------------- frames

  datatype FrameInfo = FrameInfo(linked: bool, blockChecksum: bool, contentChecksum: bool, blockSizeID: nat,
                                 contentSize: Option<nat>, dictID: Option<nat>)

  predicate ValidInfo(info: FrameInfo) {
    && 4 <= info.blockSizeID <= 7
    && (info.contentSize.Some? ==> info.contentSize.value < U64)
    && (info.dictID.Some? ==> info.dictID.value < U32)
  }

  /** LZ4F_getBlockSize, for the sizes a frame can name. */
  function BlockSize(id: nat): (size: nat)
    requires 4 <= id <= 7
    ensures KB64 <= size <= 0x40_0000
  {
    if id == 4 then KB64 else if id == 5 then 0x4_0000 else if id == 6 then 0x10_0000 else 0x40_0000
  }

  function Bit(b: bool): nat {
    if b then 1 else 0
  }

  function FLG(info: FrameInfo): nat {
    64 + 32 * Bit(!info.linked) + 16 * Bit(info.blockChecksum) + 8 * Bit(info.contentSize.Some?)
    + 4 * Bit(info.contentChecksum) + Bit(info.dictID.Some?)
  }

  /** The header between the magic number and its own checksum. */
  function Descriptor(info: FrameInfo): seq<byte>
    requires ValidInfo(info)
  {
    [FLG(info), 16 * info.blockSizeID]
    + (if info.contentSize.Some? then LE(info.contentSize.value, 8) else [])
    + (if info.dictID.Some? then LE(info.dictID.value, 4) else [])
  }

  /** LZ4F_headerChecksum. */
  function HeaderChecksum(p: seq<byte>): byte {
    Xxh32.WriteLE32(Xxh32.Hash(0, p))[1]
  }

  function Header(info: FrameInfo): seq<byte>
    requires ValidInfo(info)
  {
    LE(LZ4F_MAGICNUMBER, 4) + Descriptor(info) + [HeaderChecksum(Descriptor(info))]
  }

  function HeaderSize(info: FrameInfo): nat {
    MIN_FH_SIZE + 8 * Bit(info.contentSize.Some?) + 4 * Bit(info.dictID.Some?)
  }

  function Checksum(p: seq<byte>): (c: seq<byte>)
    ensures |c| == 4
  {
    Xxh32.WriteLE32(Xxh32.Hash(0, p))
  }

  /** LZ4F_readLE32 of stored checksum bytes gives the hash they were made from. */
  lemma ChecksumRead(p: seq<byte>)
    ensures Xxh32.ReadLE32(Checksum(p)) == Xxh32.Hash(0, p)
  {
    Xxh32.HashRoundTrip(Xxh32.Hash(0, p));
  }

  /** A block: stored or compressed data, and the content it stands for. */
  datatype Block = Block(raw: bool, data: seq<byte>, content: seq<byte>)

  function Content(blocks: seq<Block>): seq<byte> {
    if blocks == [] then [] else Content(blocks[..|blocks| - 1]) + blocks[|blocks| - 1].content
  }

  /** In linked mode a block may refer to the content before it. */
  function History(info: FrameInfo, before: seq<byte>): seq<byte> {
    if info.linked then before else []
  }

  predicate ValidBlock(c: Codec, info: FrameInfo, before: seq<byte>, b: Block)
    requires ValidInfo(info)
  {
    && 0 < |b.data| <= BlockSize(info.blockSizeID)
    && if b.raw then b.content == b.data
       else c.decode(History(info, before), b.data, BlockSize(info.blockSizeID)) == Some(b.content)
  }

  predicate ValidBlocks(c: Codec, info: FrameInfo, blocks: seq<Block>)
    requires ValidInfo(info)
  {
    forall k :: 0 <= k < |blocks| ==> ValidBlock(c, info, Content(blocks[..k]), blocks[k])
  }

  function BlockCrc(info: FrameInfo, b: Block): seq<byte> {
    if info.blockChecksum then Checksum(b.data) else []
  }

  function BlockHeader(b: Block): (p: seq<byte>)
    ensures |p| == BH_SIZE
  {
    LE(|b.data| + if b.raw then LZ4F_BLOCKUNCOMPRESSED_FLAG else 0, 4)
  }

  function BlockBytes(info: FrameInfo, b: Block): seq<byte> {
    BlockHeader(b) + (b.data + BlockCrc(info, b))
  }

  function Suffix(info: FrameInfo, content: seq<byte>): seq<byte> {
    if info.contentChecksum then Checksum(content) else []
  }

  /** The bytes of the frame from block `k` on. */
  function From(info: FrameInfo, blocks: seq<Block>, k: nat): seq<byte>
    requires k <= |blocks|
    decreases |blocks| - k
  {
    if k == |blocks| then LE(0, 4) + Suffix(info, Content(blocks))
    else BlockBytes(info, blocks[k]) + From(info, blocks, k + 1)
  }

  datatype Frame =
    | Data(info: FrameInfo, blocks: seq<Block>)
    | Skippable(low: nat, payload: seq<byte>)

  predicate ValidFrame(c: Codec, f: Frame) {
    match f
    case Data(info, blocks) =>
      && ValidInfo(info) && ValidBlocks(c, info, blocks)
      && (info.contentSize.Some? && info.contentSize.value > 0 ==> |Content(blocks)| == info.contentSize.value)
    case Skippable(low, payload) => low < 16 && |payload| < U32
  }

  function FrameBytes(f: Frame): seq<byte>
    requires f.Data? ==> ValidInfo(f.info)
  {
    match f
    case Data(info, blocks) => Header(info) + From(info, blocks, 0)
    case Skippable(low, payload) => LE(LZ4F_MAGIC_SKIPPABLE_START + low, 4) + (LE(|payload|, 4) + payload)
  }

  /** What decoding a frame is to produce. */
  function FrameContent(f: Frame): seq<byte> {
    match f
    case Data(_, blocks) => Content(blocks)
    case Skippable(_, _) => []
  }

  lemma HeaderLength(info: FrameInfo)
    requires ValidInfo(info)
    ensures |Header(info)| == HeaderSize(info) <= MAX_FH_SIZE
  {
  }

  lemma ContentNone(blocks: seq<Block>)
    ensures Content(blocks[..0]) == []
  {
  }

  lemma ContentOneMore(blocks: seq<Block>, k: nat)
    requires k < |blocks|
    ensures Content(blocks[..k + 1]) == Content(blocks[..k]) + blocks[k].content
  {
    assert blocks[..k + 1][..k] == blocks[..k];
  }

  lemma {:induction false} ContentPrefix(blocks: seq<Block>, k: nat)
    requires k <= |blocks|
    ensures Content(blocks[..k]) <= Content(blocks)
    decreases |blocks| - k
  {
    if k < |blocks| {
      ContentOneMore(blocks, k);
      ContentPrefix(blocks, k + 1);
    } else {
      assert blocks[..k] == blocks;
    }
  }

  /** What the block header says, read back. */
  lemma BlockHeaderRead(b: Block)
    requires |b.data| < LZ4F_BLOCKUNCOMPRESSED_FLAG
    ensures var n := ReadLE(BlockHeader(b));
      n % LZ4F_BLOCKUNCOMPRESSED_FLAG == |b.data| && (n >= LZ4F_BLOCKUNCOMPRESSED_FLAG <==> b.raw)
  {
    ReadLE32RoundTrip(|b.data| + if b.raw then LZ4F_BLOCKUNCOMPRESSED_FLAG else 0);
  }
}
