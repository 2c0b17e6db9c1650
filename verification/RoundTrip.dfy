/** Every block that respects the end-of-block rules decodes, into any large enough buffer, to
    the bytes its sequences stand for. */
module RoundTrip {
  import opened Bytes
  import opened Numbers
  import opened BlockFormat
  import opened BlockDecoder
  import opened FastDecoder

  /** The parsing restrictions of the block format: after the last match come at least 5
      literals, and that match starts at least 12 bytes before the end. */
  predicate EndsWell(ss: seq<Sequence>, last: seq<byte>) {
    ss == [] || (|last| >= LASTLITERALS && ss[|ss| - 1].matchLength + |last| >= MFLIMIT)
  }

  predicate ValidParse(ss: seq<Sequence>, last: seq<byte>) {
    (forall s <- ss :: Encodable(s)) && OffsetsInside(ss) && EndsWell(ss, last)
  }

  lemma {:induction false} ReadsExtraBytes(src: seq<byte>, i: nat, n: nat, lencheck: nat, acc: nat)
    requires i + n / 255 < lencheck <= |src| && acc + n < U32
    requires forall k :: i <= k < i + n / 255 ==> src[k] == 255
    requires src[i + n / 255] == n % 255
    ensures var j := i + n / 255 + 1;
      ReadVariableLength(src, i, lencheck, acc) == VariableLength(acc + n, j, j >= lencheck)
    decreases n
  {
    if n >= 255 {
      ReadsExtraBytes(src, i + 1, n - 255, lencheck, acc + 255);
    }
  }

  /** The length field of either half of the token, when enough input follows it. */
  lemma ReadsLength(src: seq<byte>, i: nat, n: nat, lencheck: nat)
    requires i + |LengthBytes(n)| <= |src| && src[i..i + |LengthBytes(n)|] == LengthBytes(n)
    requires n >= 15 ==> i + |LengthBytes(n)| <= lencheck <= |src| && n < U32
    ensures n >= 15 ==>
      var j := i + |LengthBytes(n)|;
      ReadVariableLength(src, i, lencheck, 0) == VariableLength(n - 15, j, j >= lencheck)
  {
    if n >= 15 {
      var bytes := src[i..i + |LengthBytes(n)|];
      assert forall k :: 0 <= k < |bytes| ==> src[i + k] == bytes[k];
      ReadsExtraBytes(src, i, n - 15, lencheck, 0);
    }
  }

  /** Where the fields of one encoded sequence lie: the token at `ip`, length bytes up to
      `from`, literals up to `end`, the offset, length bytes from `code` to `next`. */
  datatype Fields = Fields(ip: nat, from: nat, end: nat, code: nat, next: nat)

  function FieldsOf(ip: nat, s: Sequence): Fields
    requires Encodable(s)
  {
    var from := ip + 1 + |LengthBytes(|s.literals|)|;
    var end := from + |s.literals|;
    Fields(ip, from, end, end + 2, ip + EncodedLength(s))
  }

  predicate HoldsFields(src: seq<byte>, f: Fields, t: byte, l: seq<byte>, x: seq<byte>, offset: nat, m: seq<byte>) {
    && f.ip < f.from <= f.end < f.code <= f.next <= |src| && f.end + 2 == f.code
    && src[f.ip] == t && src[f.ip + 1..f.from] == l && src[f.from..f.end] == x
    && Le16(src, f.end) == offset && src[f.code..f.next] == m
  }

  lemma Layout(p: seq<byte>, t: byte, l: seq<byte>, x: seq<byte>, offset: nat, m: seq<byte>, tail: seq<byte>, f: Fields)
    requires offset <= DISTANCE_MAX
    requires f.ip == |p| && f.from == f.ip + 1 + |l| && f.end == f.from + |x|
    requires f.code == f.end + 2 && f.next == f.code + |m|
    ensures HoldsFields(p + ([t] + l + x + [offset % 256, offset / 256] + m) + tail, f, t, l, x, offset, m)
  {
  }

  /** `src` holds the encoding of `s` at `ip`. */
  predicate HoldsSequence(src: seq<byte>, ip: nat, s: Sequence)
    requires Encodable(s)
  {
    HoldsFields(src, FieldsOf(ip, s), Token(|s.literals|, s.matchLength - MINMATCH), LengthBytes(|s.literals|),
                s.literals, s.offset, LengthBytes(s.matchLength - MINMATCH))
  }

  lemma SequenceLayout(prefix: seq<byte>, s: Sequence, tail: seq<byte>)
    requires Encodable(s)
    ensures HoldsSequence(prefix + EncodeSequence(s) + tail, |prefix|, s)
  {
    hide LengthBytes, Token;
    var t, l, m := Token(|s.literals|, s.matchLength - MINMATCH), LengthBytes(|s.literals|),
        LengthBytes(s.matchLength - MINMATCH);
    var f := FieldsOf(|prefix|, s);
    Layout(prefix, t, l, s.literals, s.offset, m, tail, f);
    assert HoldsFields(prefix + EncodeSequence(s) + tail, f, t, l, s.literals, s.offset, m);
  }

  /** The literal half of a turn, down to the match. */
  lemma LiteralsRead(src: seq<byte>, cap: nat, ip: nat, o: nat, from: nat, litLen: nat)
    requires from == ip + 1 + |LengthBytes(litLen)| && from + litLen + 8 <= |src|
    requires src[ip] / 16 == Min(litLen, RUN_MASK) && src[ip + 1..from] == LengthBytes(litLen)
    requires o + litLen + MFLIMIT <= cap < U32
    ensures SafeStep(src, cap, ip, o) == SafeMatch(src, cap, ip, o + litLen, from, litLen,
                                                   TakesShortcut(src, cap, ip, o))
  {
    ReadsLength(src, ip + 1, litLen, Max(0, |src| - 15));
  }

  lemma MatchReads(src: seq<byte>, cap: nat, f: Fields, o: nat, litLen: nat, wide: bool, code: nat)
    requires 8 <= |src| && f.ip < f.from && f.from + litLen == f.end && f.code == f.end + 2 && (wide ==> o + 18 <= cap)
    requires f.next == f.code + |LengthBytes(code)| && f.next + 6 <= |src|
    requires src[f.ip] % 16 == Min(code, ML_MASK) && Le16(src, f.end) <= o
    requires src[f.code..f.next] == LengthBytes(code)
    requires o + code + MINMATCH + LASTLITERALS <= cap < U32
    ensures SafeMatch(src, cap, f.ip, o, f.from, litLen, wide)
         == Match(f.from, litLen, Le16(src, f.end), code + MINMATCH, f.next)
  {
    ReadsLength(src, f.code, code, |src| - 4);
  }

  /** One sequence inside a block is read back by one turn of the decoder. */
  lemma SequenceStep(src: seq<byte>, s: Sequence, f: Fields, cap: nat, o: nat)
    requires Encodable(s) && f == FieldsOf(f.ip, s) && HoldsSequence(src, f.ip, s)
    requires f.next + 6 <= |src| && cap < U32
    requires s.offset <= o + |s.literals| && o + |s.literals| + MFLIMIT <= cap
    requires o + |s.literals| + s.matchLength + LASTLITERALS <= cap
    ensures SafeStep(src, cap, f.ip, o) == Match(f.from, |s.literals|, s.offset, s.matchLength, f.next)
  {
    var litLen, code := |s.literals|, s.matchLength - MINMATCH;
    hide LengthBytes, SafeStep, SafeMatch;
    assert src[f.ip] == Token(litLen, code);
    LiteralsRead(src, cap, f.ip, o, f.from, litLen);
    MatchReads(src, cap, f, o + litLen, litLen, TakesShortcut(src, cap, f.ip, o), code);
  }

  /** A sequence in the middle of a block extends the output by its meaning. */
  lemma SequenceDecodes(prefix: seq<byte>, s: Sequence, tail: seq<byte>, cap: nat, out: seq<byte>)
    requires Encodable(s) && |tail| >= 6 && cap < U32
    requires s.offset <= |out| + |s.literals| && |out| + |s.literals| + MFLIMIT <= cap
    requires |out| + |s.literals| + s.matchLength + LASTLITERALS <= cap
    ensures var src := prefix + EncodeSequence(s) + tail;
      SafeDecodeFrom(src, cap, |prefix|, out)
      == SafeDecodeFrom(src, cap, |prefix + EncodeSequence(s)|, CopyMatch(out + s.literals, s.offset, s.matchLength))
  {
    var src, f := prefix + EncodeSequence(s) + tail, FieldsOf(|prefix|, s);
    SequenceLayout(prefix, s, tail);
    SequenceStep(src, s, f, cap, |out|);
    assert src[f.from..f.end] == s.literals;
    assert WithLiterals(SafeStep(src, cap, f.ip, |out|), src, out) == out + s.literals;
  }

  lemma LastFields(src: seq<byte>, ip: nat, last: seq<byte>)
    requires ip + |EncodeLast(last)| == |src| && src[ip..] == EncodeLast(last)
    ensures src[ip] == Token(|last|, 0)
    ensures var from := |src| - |last|;
      src[ip + 1..from] == LengthBytes(|last|) && src[from..] == last && from == ip + 1 + |LengthBytes(|last|)|
  {
    hide LengthBytes, Token;
    var l := LengthBytes(|last|);
    assert [Token(|last|, 0)] + l + last == [Token(|last|, 0)] + (l + last);
    assert src[ip] == src[ip..][0];
    assert src[ip + 1..|src| - |last|] == src[ip..][1..1 + |l|];
    assert src[|src| - |last|..] == src[ip..][1 + |l|..];
  }

  /** The closing literals are read back as the end of the block. */
  lemma LastStep(src: seq<byte>, ip: nat, last: seq<byte>, cap: nat, o: nat)
    requires ip + 1 + |LengthBytes(|last|)| + |last| == |src| && src[ip] == Token(|last|, 0)
    requires src[ip + 1..|src| - |last|] == LengthBytes(|last|)
    requires o + |last| <= cap < U32
    ensures SafeStep(src, cap, ip, o) == Final(|src| - |last|)
  {
    if |last| >= 15 {
      ReadsLength(src, ip + 1, |last|, |src| - RUN_MASK);
    }
    assert src[ip] / 16 == Min(|last|, RUN_MASK);
    assert !TakesShortcut(src, cap, ip, o);
    assert LiteralLength(src, ip + 1, src[ip] / 16) == Some((|last|, |src| - |last|));
  }

  lemma LastDecodes(prefix: seq<byte>, last: seq<byte>, cap: nat, out: seq<byte>)
    requires |out| + |last| <= cap < U32
    ensures SafeDecodeFrom(prefix + EncodeLast(last), cap, |prefix|, out) == Some(out + last)
  {
    hide SafeStep, LengthBytes, Token;
    var src := prefix + EncodeLast(last);
    assert src[|prefix|..] == EncodeLast(last);
    LastFields(src, |prefix|, last);
    LastStep(src, |prefix|, last, cap, |out|);
  }

  /** Room for the sequences of a block that obeys the end-of-block rules. */
  predicate Fits(ss: seq<Sequence>, cap: nat) {
    ss == [] || (ExpandedLength(ss) + LASTLITERALS <= cap
                 && ExpandedLength(ss) - ss[|ss| - 1].matchLength + MFLIMIT <= cap)
  }

  /** Decoding a block reaches the end of its sequences with their meaning written out. */
  lemma {:induction false} SequencesDecode(ss: seq<Sequence>, tail: seq<byte>, cap: nat)
    requires (forall s <- ss :: Encodable(s)) && OffsetsInside(ss) && Fits(ss, cap)
    requires |tail| >= (if ss == [] then 1 else 6) && cap < U32
    ensures ExpandedLength(ss) <= cap
    ensures SafeDecodeFrom(EncodeAll(ss) + tail, cap, 0, [])
         == SafeDecodeFrom(EncodeAll(ss) + tail, cap, |EncodeAll(ss)|, Expand(ss))
  {
    if ss != [] {
      var p, s := ss[..|ss| - 1], ss[|ss| - 1];
      assert EncodeAll(ss) + tail == EncodeAll(p) + (EncodeSequence(s) + tail);
      assert Fits(p, cap);
      SequencesDecode(p, EncodeSequence(s) + tail, cap);
      SequenceDecodes(EncodeAll(p), s, tail, cap, Expand(p));
    }
  }

  lemma SequenceHasOffset(prefix: seq<byte>, s: Sequence, tail: seq<byte>, cap: nat, o: nat)
    requires Encodable(s) && |tail| >= 6 && cap < U32
    requires s.offset <= o + |s.literals| && o + |s.literals| + MFLIMIT <= cap
    requires o + |s.literals| + s.matchLength + LASTLITERALS <= cap
    requires NoZeroOffset(prefix + EncodeSequence(s) + tail, cap, |prefix + EncodeSequence(s)|,
      o + |s.literals| + s.matchLength)
    ensures NoZeroOffset(prefix + EncodeSequence(s) + tail, cap, |prefix|, o)
  {
    hide SafeStep, HoldsSequence;
    SequenceLayout(prefix, s, tail);
    SequenceStep(prefix + EncodeSequence(s) + tail, s, FieldsOf(|prefix|, s), cap, o);
  }

  lemma {:induction false} SequencesHaveOffsets(ss: seq<Sequence>, tail: seq<byte>, cap: nat)
    requires (forall s <- ss :: Encodable(s)) && OffsetsInside(ss) && Fits(ss, cap)
    requires |tail| >= (if ss == [] then 1 else 6) && cap < U32 && ExpandedLength(ss) <= cap
    requires NoZeroOffset(EncodeAll(ss) + tail, cap, |EncodeAll(ss)|, ExpandedLength(ss))
    ensures NoZeroOffset(EncodeAll(ss) + tail, cap, 0, 0)
  {
    hide NoZeroOffset, EncodeSequence, LengthBytes;
    if ss != [] {
      var p, s := ss[..|ss| - 1], ss[|ss| - 1];
      assert Fits(p, cap);
      assert EncodeAll(ss) == EncodeAll(p) + EncodeSequence(s);
      SequenceHasOffset(EncodeAll(p), s, tail, cap, ExpandedLength(p));
      assert EncodeAll(p) + EncodeSequence(s) + tail == EncodeAll(p) + (EncodeSequence(s) + tail);
      SequencesHaveOffsets(p, EncodeSequence(s) + tail, cap);
    }
  }

  lemma LastHasNoOffset(prefix: seq<byte>, last: seq<byte>, cap: nat, o: nat)
    requires o + |last| <= cap < U32
    ensures NoZeroOffset(prefix + EncodeLast(last), cap, |prefix|, o)
  {
    hide SafeStep;
    var src := prefix + EncodeLast(last);
    assert src[|prefix|..] == EncodeLast(last);
    LastFields(src, |prefix|, last);
    LastStep(src, |prefix|, last, cap, o);
  }

  /** Any block built from sequences that obey the format's rules decodes in the main loop to their
      meaning, whatever the spare room in the output buffer: none is needed. */
  lemma BlockDecodesSafely(ss: seq<Sequence>, last: seq<byte>, cap: nat)
    requires ValidParse(ss, last) && ExpandedLength(ss) + |last| <= cap < U32
    ensures SafeDecode(EncodeBlock(ss, last), cap) == Some(Expand(ss) + last)
    ensures NoZeroOffset(EncodeBlock(ss, last), cap, 0, 0)
  {
    hide NoZeroOffset;
    LastHasNoOffset(EncodeAll(ss), last, cap, ExpandedLength(ss));
    SequencesHaveOffsets(ss, EncodeLast(last), cap);
    if cap == 0 {
      assert ss == [] && EncodeBlock(ss, last) == [0];
    } else {
      SequencesDecode(ss, EncodeLast(last), cap);
      LastDecodes(EncodeAll(ss), last, cap, Expand(ss));
    }
  }

  /** In either build it decodes to that, whatever the output buffer held. */
  lemma BlockDecodes(ss: seq<Sequence>, last: seq<byte>, buf: seq<byte>, LZ4_FAST_DEC_LOOP: bool)
    requires ValidParse(ss, last) && ExpandedLength(ss) + |last| <= |buf| < U32
    ensures Decompressed(EncodeBlock(ss, last), buf, LZ4_FAST_DEC_LOOP) == Some(Expand(ss) + last)
  {
    hide SafeDecode, FastDecode, NoZeroOffset;
    BlockDecodesSafely(ss, last, |buf|);
    AgreeWithoutZeroOffset(EncodeBlock(ss, last), buf);
  }
}
