/** The entry points of lz4hc.c for one independent block: compression levels, state reuse. */
module HcCompressor {
  import opened Bytes
  import opened BlockFormat
  import opened BlockDecoder
  import opened BlockParse
  import opened Hashing
  import opened Numbers
  import opened HcMatchFinder
  import opened HcEncoder
  import opened HcLazyParser
  import opened HcOptimalParser

  const LZ4HC_CLEVEL_DEFAULT := 9
  const LZ4HC_CLEVEL_MAX := 12

  /** What LZ4_initStreamHC leaves as `end - base`. */
  const UNINITIALISED := 0xFFFF_FFFF_FFFF_FFFF

  datatype Strategy = lz4hc(nbSearches: nat) | lz4opt(nbSearches: nat, targetLength: nat)

  /** CL_TABLE. */
  function Parameters(cLevel: nat): Strategy
    requires 1 <= cLevel <= LZ4HC_CLEVEL_MAX
  {
    if cLevel <= 2 then lz4hc(2)
    else if cLevel == 3 then lz4hc(4)
    else if cLevel == 4 then lz4hc(8)
    else if cLevel == 5 then lz4hc(16)
    else if cLevel == 6 then lz4hc(32)
    else if cLevel == 7 then lz4hc(64)
    else if cLevel == 8 then lz4hc(128)
    else if cLevel == 9 then lz4hc(256)
    else if cLevel == 10 then lz4opt(96, 64)
    else if cLevel == 11 then lz4opt(512, 128)
    else lz4opt(16384, LZ4_OPT_NUM)
  }

  function ClampLevel(level: int): (l: nat)
    ensures 1 <= l <= LZ4HC_CLEVEL_MAX
  {
    Min(LZ4HC_CLEVEL_MAX, if level < 1 then LZ4HC_CLEVEL_DEFAULT else level)
  }

  /** LZ4_streamHC_t, without dictionaries. `used` is `end - base`. */
  class Stream {
    const index: Index
    var used: nat
    var dirty: bool
    var favorDecSpeed: bool
    var compressionLevel: nat

    ghost predicate Valid()
      reads this, index, index.hashTable, index.chainTable
    {
      index.Idle(used)
    }

    /** LZ4_createStreamHC. */
    constructor (hash: Hash)
      requires HashesInto(hash, LZ4HC_HASHTABLESIZE)
      ensures Valid() && !dirty && used == UNINITIALISED
      ensures fresh(index) && fresh(index.hashTable) && fresh(index.chainTable)
    {
      index := new Index(hash);
      used, dirty, favorDecSpeed, compressionLevel := UNINITIALISED, false, false, LZ4HC_CLEVEL_DEFAULT;
    }

    /** LZ4_resetStreamHC_fast; a state whose last compression failed is initialised anew. */
    method ResetFast(level: int)
      requires Valid()
      modifies this
      ensures Valid() && !dirty && compressionLevel == ClampLevel(level)
    {
      if dirty {
        used, favorDecSpeed, dirty := UNINITIALISED, false, false;
      }
      compressionLevel := ClampLevel(level);
    }

    /** LZ4HC_compress_generic_internal: no table index passes 32 bits, and what is written
        stands for exactly the input consumed. */
    method CompressGeneric(src: seq<byte>, dst: array<byte>, level: int, limit: Limit) returns (r: nat, consumed: nat)
      requires index.Fresh() && index.start == used <= GB + LZ4HC_MAXD
      requires dst != index.hashTable as object && dst != index.chainTable as object
      requires |src| <= MAX_INPUT_SIZE ==> HcRoom(|src|, dst.Length, limit)
      modifies this, index, index.hashTable, index.chainTable, dst
      ensures Valid() && used < U32
      ensures consumed <= |src| && (limit != fillOutput && r > 0 ==> consumed == |src|)
      ensures r == 0 ==> |src| > MAX_INPUT_SIZE || limit == limitedOutput || (limit == fillOutput && dst.Length == 0)
      ensures r > 0 ==> r <= dst.Length && r <= CompressBound(|src|) && DecodesTo(dst[..r], src[..consumed])
    {
      index.BecomesIdle([]);
      if limit == fillOutput && dst.Length < 1 { return 0, 0; }
      if |src| > MAX_INPUT_SIZE { return 0, 0; }
      used := used + |src|;
      match Parameters(ClampLevel(level)) {
        case lz4hc(nbSearches) =>
          r, consumed := CompressHashChain(index, src, dst, nbSearches, limit);
        case lz4opt(nbSearches, targetLength) =>
          r, consumed :=
              CompressOptimal(index, src, dst, nbSearches, targetLength, limit, ClampLevel(level) == LZ4HC_CLEVEL_MAX,
                  favorDecSpeed);
      }
      index.BecomesIdle(src);
      if r == 0 { dirty := true; }
    }

    /** LZ4_compress_HC_extStateHC_fastReset: whatever earlier calls left in the tables, and for
        every level, the block decodes to `src`, and a buffer of the bound is always enough. */
    method CompressFastReset(src: seq<byte>, dst: array<byte>, level: int) returns (r: nat)
      requires Valid() && dst != index.hashTable as object && dst != index.chainTable as object
      modifies this, index, index.hashTable, index.chainTable, dst
      ensures Valid()
      ensures r == 0 ==> |src| > MAX_INPUT_SIZE || dst.Length < CompressBound(|src|)
      ensures r > 0 ==> r <= dst.Length && r <= CompressBound(|src|) && DecodesTo(dst[..r], src)
    {
      ResetFast(level);
      index.Restart(used);
      used := index.start;
      var consumed;
      r, consumed :=
          CompressGeneric(src, dst, level, if dst.Length < CompressBound(|src|) then limitedOutput else notLimited);
      if r > 0 { assert src[..consumed] == src; }
    }

    /** LZ4_compress_HC_destSize: fills the buffer with a block for as much input as fits. */
    method CompressDestSize(src: seq<byte>, dst: array<byte>, level: int) returns (r: nat, consumed: nat)
      requires Valid() && dst != index.hashTable as object && dst != index.chainTable as object
      modifies this, index, index.hashTable, index.chainTable, dst
      ensures Valid() && consumed <= |src|
      ensures r == 0 <==> |src| > MAX_INPUT_SIZE || dst.Length == 0
      ensures r > 0 ==> r <= dst.Length && DecodesTo(dst[..r], src[..consumed])
    {
      used, favorDecSpeed, dirty := UNINITIALISED, false, false;
      index.Restart(used);
      used := index.start;
      compressionLevel := ClampLevel(level);
      r, consumed := CompressGeneric(src, dst, level, fillOutput);
    }
  }
}
