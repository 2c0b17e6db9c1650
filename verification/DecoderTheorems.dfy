/** What the exact behaviour of LZ4_decompress_safe means in terms of the block format. */
module DecoderTheorems {
  import opened Bytes
  import opened Numbers
  import opened BlockFormat
  import opened BlockDecoder
  import opened FastDecoder

  // ---------------------------------------------------------------- length fields

  lemma AddWrapped(a: nat, b: nat)
    ensures (a % U32 + b) % U32 == (a + b) % U32
  {
    assert a == a / U32 * U32 + a % U32;
  }

  /** The code stops where the length field ends, or early, on a 255. */
  lemma {:induction false} CodeStops(src: seq<byte>, i: nat, lencheck: nat, acc: nat)
    requires i < |src| && lencheck <= |src|
    ensures var v, full := ReadVariableLength(src, i, lencheck, acc), ReadExtra(src, i);
      || (v.loopError && forall k :: i <= k < v.next ==> src[k] == 255)
      || (full.Some? && full.value.1 == v.next && full.value.0 <= 255 * (v.next - i))
    decreases |src| - i
  {
    if i + 1 < lencheck && src[i] == 255 {
      CodeStops(src, i + 1, lencheck, (acc + 255) % U32);
    }
  }

  /** What it has summed up by then, modulo 2^32. */
  lemma {:induction false} CodeSum(src: seq<byte>, i: nat, lencheck: nat, acc: nat)
    requires i < |src| && lencheck <= |src| && acc < U32
    ensures var v, full := ReadVariableLength(src, i, lencheck, acc), ReadExtra(src, i);
      && (full.Some? && full.value.1 == v.next ==> v.length == (acc + full.value.0) % U32)
      && (src[v.next - 1] == 255 ==> v.length == (acc + 255 * (v.next - i)) % U32)
    decreases |src| - i
  {
    if i + 1 < lencheck && src[i] == 255 {
      var sum := (acc + 255) % U32;
      CodeSum(src, i + 1, lencheck, sum);
      var v, full := ReadVariableLength(src, i + 1, lencheck, sum), ReadExtra(src, i + 1);
      AddWrapped(acc + 255, 255 * (v.next - i - 1));
      if full.Some? { AddWrapped(acc + 255, full.value.0); }
    }
  }

  // ---------------------------------------------------------------- soundness

  const SOUND_LIMIT := 16843018

  lemma LiteralLengthIsSound(src: seq<byte>, i: nat, nibble: nat)
    requires |src| < SOUND_LIMIT && 1 <= i <= |src| && nibble <= 15
    ensures var r := LiteralLength(src, i, nibble);
      r.Some? && r.value.1 + r.value.0 <= |src| ==> r == ReadLength(src, i, nibble)
  {
    hide ReadVariableLength, ReadExtra;
    if nibble == RUN_MASK && i < |src| - RUN_MASK {
      CodeStops(src, i, |src| - RUN_MASK, 0);
      CodeSum(src, i, |src| - RUN_MASK, 0);
    }
  }

  lemma MatchLengthIsSound(src: seq<byte>, i: nat, nibble: nat)
    requires |src| < SOUND_LIMIT && 3 <= i < |src| && 4 <= |src| && nibble <= 15
    ensures var r, full := MatchLength(src, i, nibble), ReadLength(src, i, nibble);
      r.Some? ==> full == Some((r.value.0 - MINMATCH, r.value.1))
  {
    hide ReadVariableLength, ReadExtra;
    if nibble == ML_MASK {
      CodeStops(src, i, |src| - 4, 0);
      CodeSum(src, i, |src| - 4, 0);
    }
  }

  lemma MatchIsSound(src: seq<byte>, cap: nat, ip: nat, o: nat, from: nat, litLen: nat, wide: bool)
    requires |src| < SOUND_LIMIT
    requires 8 <= |src| && ip < from && from + litLen + 2 < |src| && (wide ==> o + 18 <= cap)
    requires ReadLength(src, ip + 1, src[ip] / 16) == Some((litLen, from))
    ensures var step := SafeMatch(src, cap, ip, o, from, litLen, wide);
      step != Reject ==> step == ParseStep(src, ip)
  {
    MatchLengthIsSound(src, from + litLen + 2, src[ip] % 16);
  }

  lemma StepIsSound(src: seq<byte>, cap: nat, ip: nat, o: nat)
    requires |src| < SOUND_LIMIT && ip < |src| && o <= cap
    requires SafeStep(src, cap, ip, o) != Reject
    ensures SafeStep(src, cap, ip, o) == ParseStep(src, ip)
  {
    if TakesShortcut(src, cap, ip, o) {
      MatchIsSound(src, cap, ip, o + src[ip] / 16, ip + 1, src[ip] / 16, true);
    } else {
      LiteralLengthIsSound(src, ip + 1, src[ip] / 16);
      var (litLen, from) := LiteralLength(src, ip + 1, src[ip] / 16).value;
      if !(o + litLen > cap - MFLIMIT || from + litLen > |src| - 8) {
        MatchIsSound(src, cap, ip, o + litLen, from, litLen, false);
      }
    }
  }

  /** On blocks shorter than SOUND_LIMIT a successful call returns the reference decoding. */
  lemma {:induction false} SafeDecodeFromIsSound(src: seq<byte>, cap: nat, ip: nat, out: seq<byte>)
    requires |src| < SOUND_LIMIT && ip < |src| && |out| <= cap
    requires SafeDecodeFrom(src, cap, ip, out).Some?
    ensures SafeDecodeFrom(src, cap, ip, out) == DecodeFrom(src, ip, out)
    decreases |src| - ip
  {
    hide SafeStep, ParseStep, CopyMatch;
    StepIsSound(src, cap, ip, |out|);
    var step := SafeStep(src, cap, ip, |out|);
    if step.Match? {
      SafeDecodeFromIsSound(src, cap, step.next,
                            CopyMatch(WithLiterals(step, src, out), step.offset, step.matchLength));
    }
  }

  lemma SafeDecodeIsSound(src: seq<byte>, cap: nat)
    requires |src| < SOUND_LIMIT && SafeDecode(src, cap).Some?
    ensures SafeDecode(src, cap) == Decode(src)
  {
    if cap == 0 {
      assert ParseStep(src, 0) == Final(1) && [] + src[1..] == [];
    } else {
      SafeDecodeFromIsSound(src, cap, 0, []);
    }
  }

  // ---------------------------------------------------------------- where soundness stops

  lemma {:induction false} CodeLengthOfRun(src: seq<byte>, i: nat, run: nat, lencheck: nat, acc: nat)
    requires i + run < lencheck <= |src| && acc < U32
    requires forall k :: i <= k < i + run ==> src[k] == 255
    ensures ReadVariableLength(src, i, lencheck, acc)
         == ReadVariableLength(src, i + run, lencheck, (acc + 255 * run) % U32)
    decreases run
  {
    if run > 0 {
      var sum := (acc + 255) % U32;
      CodeLengthOfRun(src, i + 1, run - 1, lencheck, sum);
      AddWrapped(acc + 255, 255 * (run - 1));
    }
  }

  lemma {:induction false} FullLengthOfRun(src: seq<byte>, i: nat, run: nat)
    requires i + run < |src| && src[i + run] < 255
    requires forall k :: i <= k < i + run ==> src[k] == 255
    ensures ReadExtra(src, i) == Some((255 * run + src[i + run], i + run + 1))
    decreases run
  {
    if run > 0 {
      FullLengthOfRun(src, i + 1, run - 1);
    }
  }

  /** One match, `head` bytes into the block, whose length field sums to 2^32 plus a little, then
      four literals. */
  function WrappingBlock(head: seq<byte>, run: nat): (src: seq<byte>)
    ensures |src| == |head| + run + 6
  {
    head + seq(run, _ => 255) + [1] + [64, 7, 7, 7, 7]
  }

  const WRAPPING_RUN := 16843009

  /** A match at offset 0, or one literal and a match at offset 1. */
  predicate IsHead(head: seq<byte>) {
    head == [15, 0, 0] || head == [31, 65, 1, 0]
  }

  function HeadLiterals(head: seq<byte>): nat
    requires IsHead(head)
  {
    |head| - 3
  }

  lemma WrappingBytes(head: seq<byte>, run: nat)
    ensures var src := WrappingBlock(head, run);
      && src[..|head|] == head && src[|head| + run] == 1 && src[|head| + run + 1] == 64
      && forall k :: |head| <= k < |head| + run ==> src[k] == 255
  {
  }

  lemma WrappingLengths(head: seq<byte>, more: nat)
    requires IsHead(head)
    ensures var src, run, code := WrappingBlock(head, WRAPPING_RUN + more), WRAPPING_RUN + more,
      (255 * more) % U32;
      && ReadVariableLength(src, |head|, |src| - 4, 0) == VariableLength(code, |src| - 5, false)
      && ReadExtra(src, |head|) == Some((255 * run + 1, |src| - 5))
  {
    hide WrappingBlock, ReadVariableLength, ReadExtra;
    var src, run := WrappingBlock(head, WRAPPING_RUN + more), WRAPPING_RUN + more;
    WrappingBytes(head, run);
    CodeLengthOfRun(src, |head|, run, |src| - 4, 0);
    FullLengthOfRun(src, |head|, run);
    WrappedSum(more);
    LastExtraByte(src, |src| - 6, |src| - 4, 255 * run % U32);
  }

  lemma WrappedSum(more: nat)
    ensures (255 * (WRAPPING_RUN + more) % U32 + 1) % U32 == (255 * more) % U32
  {
    AddWrapped(255 * (WRAPPING_RUN + more), 1);
    AddWrapped(U32, 255 * more);
  }

  lemma LastExtraByte(src: seq<byte>, i: nat, lencheck: nat, acc: nat)
    requires i + 1 < lencheck <= |src| && src[i] == 1
    ensures ReadVariableLength(src, i, lencheck, acc) == VariableLength((acc + 1) % U32, i + 1, false)
  {
  }

  lemma WrappingSteps(head: seq<byte>, more: nat)
    requires IsHead(head)
    ensures var src, lits, n := WrappingBlock(head, WRAPPING_RUN + more), HeadLiterals(head),
      |head| + WRAPPING_RUN + more + 6;
      var code, full := (255 * more) % U32, 255 * (WRAPPING_RUN + more) + 1;
      && SafeStep(src, 24 + lits + code, 0, 0) == Match(1, lits, lits, code + 19, n - 5)
      && SafeStep(src, 24 + lits + code, n - 5, lits + code + 19) == Final(n - 4)
      && ParseStep(src, 0) == Match(1, lits, lits, full + 19, n - 5)
      && ParseStep(src, n - 5) == Final(n - 4)
  {
    hide ReadVariableLength, ReadExtra, WrappingBlock;
    WrappingLengths(head, more);
    WrappingBytes(head, WRAPPING_RUN + more);
    var src := WrappingBlock(head, WRAPPING_RUN + more);
    assert src[0] == head[0] && src[|head| - 2] == head[|head| - 2] && src[|head| - 1] == head[|head| - 1];
    assert src[|src| - 5] == 64;
  }

  /** From SOUND_LIMIT bytes on, the 32-bit length wraps: the call succeeds, with output the
      format does not give the block. */
  lemma WrappingBlockIsMisread(head: seq<byte>, more: nat)
    requires IsHead(head)
    ensures var src, cap := WrappingBlock(head, WRAPPING_RUN + more), 24 + HeadLiterals(head) + (255 * more) % U32;
      SafeDecode(src, cap).Some? && SafeDecode(src, cap) != Decode(src)
  {
    hide SafeStep, ParseStep, WrappingBlock, CopyMatch;
    var src, lits, code := WrappingBlock(head, WRAPPING_RUN + more), HeadLiterals(head), (255 * more) % U32;
    var cap, full := 24 + lits + code, 255 * (WRAPPING_RUN + more) + 1;
    WrappingSteps(head, more);
    var literals := [] + src[1..1 + lits];
    assert WithLiterals(SafeStep(src, cap, 0, 0), src, []) == literals;
    assert SafeDecode(src, cap) == SafeDecodeFrom(src, cap, |src| - 5, CopyMatch(literals, lits, code + 19));
    assert Decode(src) == DecodeFrom(src, |src| - 5, CopyMatch(literals, lits, full + 19));
    assert |SafeDecode(src, cap).value| == lits + code + 23;
    assert |Decode(src).value| == lits + full + 23;
  }

  /** With a literal in front, the misread block has no match at offset 0. */
  lemma NoZeroInWrappingBlock(more: nat)
    ensures var head := [31, 65, 1, 0];
      NoZeroOffset(WrappingBlock(head, WRAPPING_RUN + more), 25 + (255 * more) % U32, 0, 0)
  {
    hide SafeStep, WrappingBlock;
    WrappingSteps([31, 65, 1, 0], more);
  }

  /** In either build the decoder returns only what the format says, for all blocks of `n` bytes
      and all output buffers in which the fast loop does not repeat scribble, exactly when `n` is
      below SOUND_LIMIT. */
  lemma SoundnessLimit(n: nat, LZ4_FAST_DEC_LOOP: bool)
    ensures n < SOUND_LIMIT <==>
      forall src: seq<byte>, buf: seq<byte> ::
        (|src| == n && Decompressed(src, buf, LZ4_FAST_DEC_LOOP).Some?
            && (LZ4_FAST_DEC_LOOP ==> !RepeatsScribble(src, buf))) ==>
          Decompressed(src, buf, LZ4_FAST_DEC_LOOP) == Decode(src)
  {
    hide SafeDecode, FastDecode, RepeatsScribble, Decode, WrappingBlock, NoZeroOffset;
    if n < SOUND_LIMIT {
      forall src: seq<byte>, buf: seq<byte> | |src| == n && Decompressed(src, buf, LZ4_FAST_DEC_LOOP).Some?
          && (LZ4_FAST_DEC_LOOP ==> !RepeatsScribble(src, buf))
        ensures Decompressed(src, buf, LZ4_FAST_DEC_LOOP) == Decode(src)
      {
        BuildsAgree(src, buf);
        SafeDecodeIsSound(src, |buf|);
      }
    } else if LZ4_FAST_DEC_LOOP && n > SOUND_LIMIT {
      var more := n - SOUND_LIMIT - 1;
      var src, buf := WrappingBlock([31, 65, 1, 0], WRAPPING_RUN + more), Zeros(25 + (255 * more) % U32);
      WrappingBlockIsMisread([31, 65, 1, 0], more);
      NoZeroInWrappingBlock(more);
      AgreeWithoutZeroOffset(src, buf);
      BuildsAgree(src, buf);
    } else {
      var more := n - SOUND_LIMIT;
      var src, buf := WrappingBlock([15, 0, 0], WRAPPING_RUN + more), Zeros(24 + (255 * more) % U32);
      WrappingBlockIsMisread([15, 0, 0], more);
      if LZ4_FAST_DEC_LOOP { ShortBuffer(src, buf); }
      assert |src| == n && Decompressed(src, buf, LZ4_FAST_DEC_LOOP).Some?
          && Decompressed(src, buf, LZ4_FAST_DEC_LOOP) != Decode(src);
    }
  }

  function Zeros(n: nat): (s: seq<byte>)
    ensures |s| == n
  {
    seq(n, _ => 0)
  }

  lemma ShortBuffer(src: seq<byte>, buf: seq<byte>)
    requires |buf| < FASTLOOP_SAFE_DISTANCE
    ensures FastDecode(src, buf) == SafeDecode(src, |buf|) && !RepeatsScribble(src, buf)
  {
  }
}
