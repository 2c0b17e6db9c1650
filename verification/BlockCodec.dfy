/**
 The block codec of frames. The block compressors and the block decoder together are one for
 independent blocks; and for linked blocks, any compressor that spells its input behind the
 history is one with the decoder that finds the history in front of its output.
*/
module BlockCodec {
  import opened Bytes
  import opened Numbers
  import opened BlockFormat
  import opened BlockDecoder
  import opened BlockParse
  import opened RoundTrip
  import FastDecoder
  import FrameFormat

  // ---------------------------------------------------------------- independent blocks

  /** What every block compressor promises of its output, whatever its tables hold: it fits, and it
      is the input again. */
  ghost predicate IsCompressor(compress: (nat, seq<byte>, nat) -> Option<seq<byte>>) {
    forall tables: nat, s: seq<byte>, cap: nat :: Promises(compress(tables, s, cap), s, cap)
  }

  ghost predicate Promises(r: Option<seq<byte>>, s: seq<byte>, cap: nat) {
    r.Some? ==> 0 < |r.value| <= cap && DecodesTo(r.value, s)
  }

  /** Such a compressor with LZ4_decompress_safe, neither of them looking at the history. */
  function Independent(compress: (nat, seq<byte>, nat) -> Option<seq<byte>>): FrameFormat.Codec {
    FrameFormat.Codec((tables, h, s, cap) => compress(tables, s, cap), (h, x, cap) => SafeDecode(x, cap))
  }

  lemma PromisedDecodes(r: Option<seq<byte>>, s: seq<byte>, cap: nat, room: nat)
    requires Promises(r, s, cap) && r.Some? && |s| <= room <= 0x40_0000
    ensures SafeDecode(r.value, room) == Some(s)
  {
    hide SafeDecode;
    var buf: seq<byte> := seq(room, _ => 0);
    assert FastDecoder.Decompressed(r.value, buf, false) == Some(s);
  }

  /** What the frame encoder and decoder assume of their codec holds of this one. */
  lemma IndependentIsCodec(compress: (nat, seq<byte>, nat) -> Option<seq<byte>>)
    requires IsCompressor(compress)
    ensures FrameFormat.Decodes(Independent(compress)) && FrameFormat.Compresses(Independent(compress))
  {
    hide SafeDecode, DecodesTo;
    var c := Independent(compress);
    forall tables: nat, g: seq<byte>, h: seq<byte>, s: seq<byte>, cap: nat, room: nat
      ensures FrameFormat.RoundTrips(c, tables, g, h, s, cap, room)
    {
      var r := compress(tables, s, cap);
      assert Promises(r, s, cap);
      if r.Some? && |s| <= room <= 0x40_0000 { PromisedDecodes(r, s, cap, room); }
    }
  }

  // ---------------------------------------------------------------- sequences behind a history

  /** Every match starts inside the history or the bytes already produced. */
  predicate OffsetsBehind(n: nat, ss: seq<Sequence>) {
    ss == [] ||
    var s := ss[|ss| - 1];
    && OffsetsBehind(n, ss[..|ss| - 1])
    && s.offset <= n + ExpandedLength(ss[..|ss| - 1]) + |s.literals|
  }

  /** The history, and the bytes that the sequences add to it. */
  function ExpandBehind(h: seq<byte>, ss: seq<Sequence>): (out: seq<byte>)
    requires OffsetsBehind(|h|, ss)
    ensures |out| == |h| + ExpandedLength(ss)
  {
    if ss == [] then h
    else
      var s := ss[|ss| - 1];
      CopyMatch(ExpandBehind(h, ss[..|ss| - 1]) + s.literals, s.offset, s.matchLength)
  }

  lemma {:induction false} CopyMatchBehind(g: seq<byte>, out: seq<byte>, offset: nat, len: nat)
    requires offset <= |out|
    ensures CopyMatch(g + out, offset, len) == g + CopyMatch(out, offset, len)
    decreases len
  {
    if len > 0 {
      var b := if offset == 0 then 0 else out[|out| - offset];
      assert g + out + [b] == g + (out + [b]);
      CopyMatchBehind(g, out + [b], offset, len - 1);
    }
  }

  /** A longer history changes nothing. */
  lemma {:induction false} LongerHistory(g: seq<byte>, h: seq<byte>, ss: seq<Sequence>)
    requires OffsetsBehind(|h|, ss)
    ensures OffsetsBehind(|g + h|, ss) && ExpandBehind(g + h, ss) == g + ExpandBehind(h, ss)
  {
    if ss != [] {
      var p, s := ss[..|ss| - 1], ss[|ss| - 1];
      LongerHistory(g, h, p);
      assert g + ExpandBehind(h, p) + s.literals == g + (ExpandBehind(h, p) + s.literals);
      CopyMatchBehind(g, ExpandBehind(h, p) + s.literals, s.offset, s.matchLength);
    }
  }

  /** No match reaches further back than 64 KB. */
  lemma {:induction false} WindowIsEnough(n: nat, w: nat, ss: seq<Sequence>)
    requires OffsetsBehind(n, ss) && (forall s <- ss :: Encodable(s)) && (w >= n || w >= DISTANCE_MAX)
    ensures OffsetsBehind(w, ss)
  {
    if ss != [] {
      WindowIsEnough(n, w, ss[..|ss| - 1]);
      assert Encodable(ss[|ss| - 1]);
    }
  }

  // ---------------------------------------------------------------- linked blocks

  /** A parse of `s` behind the history `h` that obeys the format's rules. */
  predicate SpellsBehind(ss: seq<Sequence>, last: seq<byte>, h: seq<byte>, s: seq<byte>) {
    && (forall q <- ss :: Encodable(q)) && OffsetsBehind(|h|, ss) && EndsWell(ss, last)
    && ExpandBehind(h, ss) + last == h + s
  }

  /** Decoding with the last 64 KB of the history in front of the output, as
      LZ4_decompress_safe_withPrefix64k does. */
  function DecodeBehind(h: seq<byte>, x: seq<byte>, cap: nat): (r: Option<seq<byte>>)
    ensures r.Some? ==> |r.value| <= cap
  {
    var w := FrameFormat.Last(h, KB64);
    if cap == 0 then if x == [0] then Some([]) else None
    else if x == [] then None
    else
      var out := SafeDecodeFrom(x, |w| + cap, 0, w);
      if out == None || |out.value| < |w| then None else Some(out.value[|w|..])
  }

  lemma SameWindow(h: seq<byte>, x: seq<byte>, cap: nat)
    ensures DecodeBehind(h, x, cap) == DecodeBehind(FrameFormat.Last(h, KB64), x, cap)
  {
    var w := FrameFormat.Last(h, KB64);
    assert FrameFormat.Last(w, KB64) == w;
  }

  /** Decoding a block reaches the end of its sequences with their meaning behind the history. */
  lemma {:induction false} SequencesDecodeBehind(h: seq<byte>, ss: seq<Sequence>, tail: seq<byte>, cap: nat)
    requires (forall s <- ss :: Encodable(s)) && OffsetsBehind(|h|, ss) && RoundTrip.Fits(ss, cap)
    requires |tail| >= (if ss == [] then 1 else 6) && |h| + cap < U32
    ensures ExpandedLength(ss) <= cap
    ensures SafeDecodeFrom(EncodeAll(ss) + tail, |h| + cap, 0, h)
         == SafeDecodeFrom(EncodeAll(ss) + tail, |h| + cap, |EncodeAll(ss)|, ExpandBehind(h, ss))
  {
    hide SafeDecodeFrom, EncodeSequence, CopyMatch, LengthBytes, Token;
    if ss != [] {
      var p, s := ss[..|ss| - 1], ss[|ss| - 1];
      assert EncodeAll(ss) + tail == EncodeAll(p) + (EncodeSequence(s) + tail);
      assert RoundTrip.Fits(p, cap);
      SequencesDecodeBehind(h, p, EncodeSequence(s) + tail, cap);
      SequenceDecodes(EncodeAll(p), s, tail, |h| + cap, ExpandBehind(h, p));
    }
  }

  /** A block that spells `s` behind the history decodes to `s`, in room for no more than that. */
  lemma SpelledDecodes(ss: seq<Sequence>, last: seq<byte>, h: seq<byte>, s: seq<byte>, room: nat)
    requires SpellsBehind(ss, last, h, s) && |s| <= room && |h| <= KB64 && room <= 0x40_0000
    ensures DecodeBehind(h, EncodeBlock(ss, last), room) == Some(s)
  {
    hide SafeDecodeFrom, EncodeSequence, LengthBytes;
    assert |ExpandBehind(h, ss) + last| == |h + s|;
    if room == 0 {
      assert ss == [] && EncodeBlock(ss, last) == [0] by { EmptyBlock(); }
    } else {
      SequencesDecodeBehind(h, ss, EncodeLast(last), room);
      LastDecodes(EncodeAll(ss), last, |h| + room, ExpandBehind(h, ss));
      assert (h + s)[|h|..] == s;
    }
  }

  lemma EmptyBlock()
    ensures EncodeBlock([], []) == [0]
  {
  }

  lemma SameTail(v: seq<byte>, x: seq<byte>, last: seq<byte>, w: seq<byte>, s: seq<byte>, g: seq<byte>, y: seq<byte>,
      h: seq<byte>)
    requires v + x == g + y && y + last == h + s && v + w == g + h
    ensures x + last == w + s
  {
    assert v + (x + last) == v + x + last == g + (y + last) == g + h + s == v + (w + s);
    assert x + last == (v + (x + last))[|v|..] && w + s == (v + (w + s))[|v|..];
  }

  /** It decodes with any history that ends in `h`. */
  lemma SpelledDecodesBehind(ss: seq<Sequence>, last: seq<byte>, g: seq<byte>, h: seq<byte>, s: seq<byte>, room: nat)
    requires SpellsBehind(ss, last, h, s) && |s| <= room <= 0x40_0000
    ensures DecodeBehind(g + h, EncodeBlock(ss, last), room) == Some(s)
  {
    hide EncodeBlock, SafeDecodeFrom, EndsWell, ExpandBehind, OffsetsBehind, DecodeBehind;
    var all := g + h;
    var w := FrameFormat.Last(all, KB64);
    var v := all[..|all| - |w|];
    assert all == v + w && FrameFormat.Last(w, KB64) == w;
    SameWindow(all, EncodeBlock(ss, last), room);
    LongerHistory(g, h, ss);
    WindowIsEnough(|all|, |w|, ss);
    LongerHistory(v, w, ss);
    SameTail(v, ExpandBehind(w, ss), last, w, s, g, ExpandBehind(h, ss), h);
    SpelledDecodes(ss, last, w, s, room);
  }

  /** A block compressor that uses the history as its dictionary. */
  ghost predicate IsLinkedCompressor(compress: (nat, seq<byte>, seq<byte>, nat) -> Option<seq<byte>>) {
    forall tables: nat, h: seq<byte>, s: seq<byte>, cap: nat :: Spelled(compress(tables, h, s, cap), h, s, cap)
  }

  ghost predicate Spelled(r: Option<seq<byte>>, h: seq<byte>, s: seq<byte>, cap: nat) {
    r.Some? ==> |r.value| <= cap && exists ss, last :: SpellsBehind(ss, last, h, s) && r.value == EncodeBlock(ss, last)
  }

  function Linked(compress: (nat, seq<byte>, seq<byte>, nat) -> Option<seq<byte>>): FrameFormat.Codec {
    FrameFormat.Codec(compress, (h, x, cap) => DecodeBehind(h, x, cap))
  }

  /** What the frame encoder and decoder assume of their codec holds of this one, too. */
  lemma LinkedIsCodec(compress: (nat, seq<byte>, seq<byte>, nat) -> Option<seq<byte>>)
    requires IsLinkedCompressor(compress)
    ensures FrameFormat.Decodes(Linked(compress)) && FrameFormat.Compresses(Linked(compress))
  {
    hide DecodeBehind, OffsetsBehind, ExpandBehind, EndsWell, EncodeBlock;
    var c := Linked(compress);
    forall tables: nat, g: seq<byte>, h: seq<byte>, s: seq<byte>, cap: nat, room: nat
      ensures FrameFormat.RoundTrips(c, tables, g, h, s, cap, room)
    {
      var r := compress(tables, h, s, cap);
      assert Spelled(r, h, s, cap);
      if r.Some? && |s| <= room <= 0x40_0000 {
        var ss, last :| SpellsBehind(ss, last, h, s) && r.value == EncodeBlock(ss, last);
        SpelledDecodesBehind(ss, last, g, h, s, room);
        BlockNotEmpty(ss, last);
      }
    }
    forall h: seq<byte>, x: seq<byte>, cap: nat
      ensures c.decode(h, x, cap) == c.decode(FrameFormat.Last(h, KB64), x, cap)
    {
      SameWindow(h, x, cap);
    }
  }

  lemma BlockNotEmpty(ss: seq<Sequence>, last: seq<byte>)
    requires forall s <- ss :: Encodable(s)
    ensures |EncodeBlock(ss, last)| > 0
  {
  }
}
