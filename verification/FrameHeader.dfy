/** Reading a frame header back. */
module FrameHeader {
  import opened Bytes
  import opened Numbers
  import opened FrameFormat

  /** What the flag byte says. */
  lemma FlagsRead(info: FrameInfo)
    ensures var f := FLG(info);
      && f < 256 && f / 64 % 4 == 1 && f / 2 % 2 == 0
      && (f / 32 % 2 == 0 <==> info.linked) && (f / 16 % 2 == 1 <==> info.blockChecksum)
      && (f / 8 % 2 == 1 <==> info.contentSize.Some?) && (f / 4 % 2 == 1 <==> info.contentChecksum)
      && (f % 2 == 1 <==> info.dictID.Some?)
  {
  }

  /** Where the fields of a header are. */
  lemma HeaderFields(info: FrameInfo)
    requires ValidInfo(info)
    ensures var h := Header(info);
      && |h| == HeaderSize(info) <= MAX_FH_SIZE && h[..4] == LE(LZ4F_MAGICNUMBER, 4) && h[4] == FLG(info)
         && h[5] == 16 * info.blockSizeID
      && (info.contentSize.Some? ==> h[6..14] == LE(info.contentSize.value, 8))
      && (info.dictID.Some? ==> h[|h| - 5..|h| - 1] == LE(info.dictID.value, 4))
      && h[|h| - 1] == HeaderChecksum(h[4..|h| - 1])
  {
    hide LE, HeaderChecksum;
    var magic, d, check := LE(LZ4F_MAGICNUMBER, 4), Descriptor(info), HeaderChecksum(Descriptor(info));
    var h := Header(info);
    assert h == magic + d + [check];
    assert h[4..|h| - 1] == d;
    var size := if info.contentSize.Some? then LE(info.contentSize.value, 8) else [];
    var id := if info.dictID.Some? then LE(info.dictID.value, 4) else [];
    assert d == [FLG(info), 16 * info.blockSizeID] + size + id;
    assert info.contentSize.Some? ==> h[6..14] == size;
    assert info.dictID.Some? ==> h[|h| - 5..|h| - 1] == id;
  }

  /** The magic numbers tell the two kinds of frames apart. */
  lemma MagicRead(f: Frame)
    requires f.Skippable? ==> f.low < 16
    ensures f.Data? ==> ReadLE(LE(LZ4F_MAGICNUMBER, 4)) == LZ4F_MAGICNUMBER
    ensures f.Skippable? ==> ReadLE(LE(LZ4F_MAGIC_SKIPPABLE_START + f.low, 4)) == LZ4F_MAGIC_SKIPPABLE_START + f.low
  {
    hide ReadLE, LE;
    ReadLE32RoundTrip(LZ4F_MAGICNUMBER);
    if f.Skippable? { ReadLE32RoundTrip(LZ4F_MAGIC_SKIPPABLE_START + f.low); }
  }

  /** The start of a frame, as far as it is there. */
  predicate StartsWith(p: seq<byte>, whole: seq<byte>) {
    var n := Min(|p|, |whole|); p[..n] == whole[..n]
  }

  lemma StartOf(p: seq<byte>, whole: seq<byte>, n: nat)
    requires StartsWith(p, whole) && n <= |p| && n <= |whole|
    ensures p[..n] == whole[..n]
  {
    var m := Min(|p|, |whole|);
    assert p[..n] == p[..m][..n] && whole[..n] == whole[..m][..n];
  }

  lemma FrameStart(f: Frame)
    requires f.Data? ==> ValidInfo(f.info)
    ensures f.Data? ==>
      |FrameBytes(f)| >= HeaderSize(f.info) + BH_SIZE && FrameBytes(f)[..HeaderSize(f.info)] == Header(f.info)
    ensures f.Data? ==> FrameBytes(f)[HeaderSize(f.info)..] == From(f.info, f.blocks, 0)
    ensures f.Skippable? ==> |FrameBytes(f)| >= 8 && FrameBytes(f)[..4] == LE(LZ4F_MAGIC_SKIPPABLE_START + f.low, 4)
    ensures f.Skippable? ==> FrameBytes(f)[4..] == LE(|f.payload|, 4) + f.payload
  {
    hide LE, Header, Content, Suffix, Checksum;
    if f.Data? { HeaderFields(f.info); }
  }

  /** The flag and block size bytes are in the first 6 bytes of any input that long. */
  lemma SameStart(p: seq<byte>, whole: seq<byte>, header: seq<byte>)
    requires StartsWith(p, whole) && 6 <= |p| && 6 <= |header| <= |whole| && whole[..|header|] == header
    ensures p[4] == header[4] && p[5] == header[5]
  {
    StartOf(p, whole, 6);
    assert p[4] == p[..6][4] && p[5] == p[..6][5] && whole[4] == whole[..6][4] && whole[5] == whole[..6][5];
  }

  /** The numbers in a header. */
  lemma ReadNumbers(info: FrameInfo, h: seq<byte>)
    requires ValidInfo(info) && h == Header(info)
    ensures |h| == HeaderSize(info)
    ensures info.contentSize.Some? ==> ReadLE(h[6..14]) == info.contentSize.value
    ensures info.dictID.Some? ==> ReadLE(h[|h| - 5..|h| - 1]) == info.dictID.value
    ensures HeaderChecksum(h[4..|h| - 1]) == h[|h| - 1]
  {
    hide ReadLE, LE, Header, HeaderChecksum;
    HeaderFields(info);
    if info.contentSize.Some? { ReadLE64RoundTrip(info.contentSize.value); }
    if info.dictID.Some? { ReadLE32RoundTrip(info.dictID.value); }
  }
}
