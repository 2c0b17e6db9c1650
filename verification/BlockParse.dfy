/** What every compressor keeps while it walks its input: the sequences emitted so far spell
    out the input up to the anchor, and obey the end-of-block rules. */
module BlockParse {
  import opened Bytes
  import opened Numbers
  import opened BlockFormat
  import opened BlockDecoder
  import opened FastDecoder
  import opened RoundTrip

  /** LZ4_COMPRESSBOUND: the output size that always suffices. */
  const MAX_INPUT_SIZE := 0x7E000000

  function CompressBound(n: nat): nat {
    if n > MAX_INPUT_SIZE then 0 else n + n / 255 + 16
  }

  /** A match the format allows at `ip`: real, at least 4 long, at most 65535 back, starting
      12 bytes and ending 5 bytes before the end of the input at the latest. */
  predicate RealMatch(src: seq<byte>, ip: nat, match_: nat, matchLength: nat) {
    && match_ < ip <= match_ + DISTANCE_MAX && matchLength >= MINMATCH
    && ip + MFLIMIT <= |src| && ip + matchLength + LASTLITERALS <= |src|
    && Repeats(src, ip, ip + matchLength, ip - match_)
  }

  function SequenceAt(src: seq<byte>, anchor: nat, ip: nat, match_: nat, matchLength: nat): Sequence
    requires anchor <= ip <= |src| && match_ <= ip
  {
    Sequence(src[anchor..ip], ip - match_, matchLength)
  }

  /** `ss` spells out `src[..anchor]`, and any literal tail may follow. */
  predicate Spells(ss: seq<Sequence>, src: seq<byte>, anchor: nat) {
    && (forall s <- ss :: Encodable(s)) && OffsetsInside(ss)
    && anchor <= |src| && Expand(ss) == src[..anchor]
    && (ss != [] ==> anchor + LASTLITERALS <= |src| && anchor - ss[|ss| - 1].matchLength + MFLIMIT <= |src|)
  }

  lemma NothingYet(src: seq<byte>)
    ensures Spells([], src, 0)
  {
  }

  lemma RealMatchRepeats(src: seq<byte>, ip: nat, match_: nat, matchLength: nat)
    requires RealMatch(src, ip, match_, matchLength)
    ensures src[..ip + matchLength] == CopyMatch(src[..ip], ip - match_, matchLength)
  {
    RepeatsIsCopyMatch(src, ip, ip + matchLength, ip - match_);
  }

  lemma AppendMeaning(ss: seq<Sequence>, s: Sequence)
    requires OffsetsInside(ss) && s.offset <= ExpandedLength(ss) + |s.literals|
    ensures OffsetsInside(ss + [s]) && ExpandedLength(ss + [s]) == ExpandedLength(ss) + |s.literals| + s.matchLength
    ensures Expand(ss + [s]) == CopyMatch(Expand(ss) + s.literals, s.offset, s.matchLength)
  {
    assert (ss + [s])[..|ss|] == ss;
  }

  /** Emitting a real match moves the anchor past it. */
  lemma MatchExtends(ss: seq<Sequence>, src: seq<byte>, anchor: nat, ip: nat, match_: nat, matchLength: nat)
    requires Spells(ss, src, anchor) && anchor <= ip && RealMatch(src, ip, match_, matchLength)
    ensures Spells(ss + [SequenceAt(src, anchor, ip, match_, matchLength)], src, ip + matchLength)
  {
    var s := SequenceAt(src, anchor, ip, match_, matchLength);
    assert src[..anchor] + s.literals == src[..ip];
    AppendMeaning(ss, s);
    RealMatchRepeats(src, ip, match_, matchLength);
    var all := ss + [s];
    assert all[|ss|] == s;
    assert forall x <- all :: Encodable(x) by {
      forall x | x in all ensures Encodable(x) { assert x in ss || x == s; }
    }
    assert Expand(all) == src[..ip + matchLength];
  }

  lemma AppendEncoding(ss: seq<Sequence>, s: Sequence)
    requires (forall x <- ss :: Encodable(x)) && Encodable(s)
    ensures EncodeAll(ss + [s]) == EncodeAll(ss) + EncodeSequence(s)
  {
    assert (ss + [s])[..|ss|] == ss;
  }

  /** A finished block decodes to the whole input in a buffer of exactly that size, or more. */
  lemma FinishedBlockDecodes(ss: seq<Sequence>, src: seq<byte>, anchor: nat, buf: seq<byte>, LZ4_FAST_DEC_LOOP: bool)
    requires Spells(ss, src, anchor) && |src| <= |buf| < U32
    ensures Decompressed(EncodeBlock(ss, src[anchor..]), buf, LZ4_FAST_DEC_LOOP) == Some(src)
  {
    assert src == src[..anchor] + src[anchor..];
    BlockDecodes(ss, src[anchor..], buf, LZ4_FAST_DEC_LOOP);
  }

  // ---------------------------------------------------------------- size of the output

  lemma SequenceSize(s: Sequence)
    requires Encodable(s)
    ensures 255 * EncodedLength(s) <= 256 * (|s.literals| + s.matchLength)
  {
  }

  /** Encoded sequences never take more than 256/255 of the bytes they stand for. */
  lemma {:induction false} EncodedSize(ss: seq<Sequence>)
    requires forall s <- ss :: Encodable(s)
    ensures 255 * |EncodeAll(ss)| <= 256 * ExpandedLength(ss)
  {
    if ss != [] {
      EncodedSize(ss[..|ss| - 1]);
      SequenceSize(ss[|ss| - 1]);
    }
  }

  lemma BlockSize(ss: seq<Sequence>, src: seq<byte>, anchor: nat)
    requires Spells(ss, src, anchor)
    ensures |EncodeBlock(ss, src[anchor..])| <= |src| + |src| / 255 + 16
  {
    EncodedSize(ss);
  }

  // ---------------------------------------------------------------- a block under construction

  /** The output is at most 256/255 of the input consumed so far. */
  predicate Tight(op: nat, anchor: nat) {
    255 * op <= 256 * anchor
  }

  /** An output buffer of the advertised bound. */
  predicate BoundRoom(n: nat, capacity: nat) {
    n + n / 255 + 16 <= capacity
  }

  lemma LiteralsFit(n: nat, capacity: nat, token: nat, anchor: nat, ip: nat)
    requires BoundRoom(n, capacity) && Tight(token, anchor) && anchor <= ip && ip + MFLIMIT <= n
    ensures token + 1 + |LengthBytes(ip - anchor)| + Max(8, ip - anchor + 7) <= capacity
  {
  }

  lemma MatchFits(n: nat, capacity: nat, token: nat, anchor: nat, ip: nat, matchCode: nat)
    requires BoundRoom(n, capacity) && Tight(token, anchor) && anchor <= ip
    requires ip + MINMATCH + matchCode + LASTLITERALS <= n
    ensures var op := token + 1 + |LengthBytes(ip - anchor)| + (ip - anchor) + 2;
      && op + |LengthBytes(matchCode)| + 3 <= capacity
      && Tight(op + |LengthBytes(matchCode)|, ip + MINMATCH + matchCode)
  {
  }

  lemma LastFits(n: nat, capacity: nat, op: nat, anchor: nat)
    requires BoundRoom(n, capacity) && Tight(op, anchor) && anchor <= n
    ensures op + 1 + |LengthBytes(n - anchor)| + (n - anchor) <= capacity
  {
  }

  /** The block under construction: sequences `ss` are encoded in `dst[..op]` and spell out the
      input up to the anchor. */
  predicate Building(ss: seq<Sequence>, src: seq<byte>, anchor: nat, dst: array<byte>, op: nat, limited: bool)
    reads dst
  {
    && Spells(ss, src, anchor) && op <= dst.Length && dst[..op] == EncodeAll(ss)
    && (!limited ==> Tight(op, anchor))
  }

  /** A sequence written after `op0` extends the block under construction. */
  lemma SequenceAdded(ss: seq<Sequence>, src: seq<byte>, anchor: nat, ip: nat, match_: nat, matchLength: nat,
      d: seq<byte>)
    requires Spells(ss, src, anchor) && anchor <= ip && RealMatch(src, ip, match_, matchLength)
    requires d == EncodeAll(ss) + EncodeSequence(Sequence(src[anchor..ip], ip - match_, matchLength))
    ensures var all := ss + [SequenceAt(src, anchor, ip, match_, matchLength)];
      Spells(all, src, ip + matchLength) && d == EncodeAll(all)
  {
    MatchExtends(ss, src, anchor, ip, match_, matchLength);
    AppendEncoding(ss, SequenceAt(src, anchor, ip, match_, matchLength));
  }

  /** In either build, the block is the whole input again, for any output buffer large enough to
      hold it, whatever the buffer held. */
  ghost predicate DecodesTo(block: seq<byte>, src: seq<byte>) {
    forall buf: seq<byte>, LZ4_FAST_DEC_LOOP: bool ::
      |src| <= |buf| < U32 ==> Decompressed(block, buf, LZ4_FAST_DEC_LOOP) == Some(src)
  }

  lemma NothingEncoded()
    ensures EncodeAll([]) == []
  {
  }

  lemma FinishedBlock(ss: seq<Sequence>, src: seq<byte>, anchor: nat)
    requires Spells(ss, src, anchor)
    ensures DecodesTo(EncodeBlock(ss, src[anchor..]), src)
    ensures |EncodeBlock(ss, src[anchor..])| <= |src| + |src| / 255 + 16
  {
    hide EncodeBlock, Expand, OffsetsInside, Decompressed;
    forall buf: seq<byte>, fast: bool | |src| <= |buf| < U32
      ensures Decompressed(EncodeBlock(ss, src[anchor..]), buf, fast) == Some(src)
    {
      FinishedBlockDecodes(ss, src, anchor, buf, fast);
    }
    BlockSize(ss, src, anchor);
  }
}
