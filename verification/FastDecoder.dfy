/**
 LZ4_decompress_safe with the fast loop that x86 builds put in front of the main loop: literals
 and matches in strides of up to 32 bytes, with jumps into the middle of the main loop near the
 end of either buffer.
*/
module FastDecoder {
  import opened Bytes
  import opened BlockFormat
  import opened Memory
  import opened BlockDecoder

  const FASTLOOP_SAFE_DISTANCE := 64

  // ---------------------------------------------------------------- what the code decides

  /** A turn of the fast loop: an error, a jump to `safe_literal_copy` or to `safe_match_copy`, or a
      whole sequence. */
  datatype FastStep =
    | Stop
    | ToLiterals(litLen: nat, from: nat)
    | ToMatch(from: nat, litLen: nat, offset: nat, matchLength: nat, next: nat)
    | Whole(from: nat, litLen: nat, offset: nat, matchLength: nat, next: nat)

  function FastParse(src: seq<byte>, cap: nat, ip: nat, o: nat): (r: FastStep)
    requires ip < |src| && o + FASTLOOP_SAFE_DISTANCE <= cap
    ensures r.ToLiterals? ==> ip < r.from && LiteralLength(src, ip + 1, src[ip] / 16) == Some((r.litLen, r.from))
    ensures r.ToMatch? || r.Whole? ==>
      && ip < r.from && r.from + r.litLen + 2 <= r.next < |src| && r.offset <= o + r.litLen && MINMATCH <= r.matchLength
      && (if src[ip] / 16 == RUN_MASK then r.litLen > 0 && o + r.litLen + 32 <= cap && r.from + r.litLen + 32 <= |src|
          else r.litLen == src[ip] / 16 && r.from + 17 <= |src|)
      && (src[ip] % 16 != ML_MASK ==> r.matchLength == src[ip] % 16 + MINMATCH)
    ensures r.Whole? ==> o + r.litLen + r.matchLength + FASTLOOP_SAFE_DISTANCE < cap
  {
    match LiteralLength(src, ip + 1, src[ip] / 16)
    case None => Stop
    case Some((litLen, from)) =>
      if src[ip] / 16 == RUN_MASK && (o + litLen > cap - 32 || from + litLen > |src| - 32) then ToLiterals(litLen, from)
      else if src[ip] / 16 != RUN_MASK && from > |src| - 17 then ToLiterals(litLen, from)
      else
        var offset := Le16(src, from + litLen);
        if offset > o + litLen then Stop
        else
          match MatchLength(src, from + litLen + 2, src[ip] % 16)
          case None => Stop
          case Some((matchLength, next)) =>
            if o + litLen + matchLength >= cap - FASTLOOP_SAFE_DISTANCE
            then ToMatch(from, litLen, offset, matchLength, next)
            else Whole(from, litLen, offset, matchLength, next)
  }

  /** How many bytes the literals are copied with. */
  function LiteralWidth(litLen: nat, nibble: nat): nat {
    if nibble == RUN_MASK then Strides(litLen, 32) else 16
  }

  /** How many bytes the match is copied with. */
  function MatchWidth(length: nat, offset: nat, nibble: nat): nat {
    if nibble != ML_MASK && offset >= 8 then 18
    else if offset >= 16 then Strides(length, 32)
    else if offset == 1 || offset == 2 || offset == 4 then Strides(length, 8)
    else 8 + Strides(length - 8, 8)
  }

  lemma Widths(length: nat, offset: nat, nibble: nat)
    requires MINMATCH <= length && nibble <= ML_MASK && (nibble != ML_MASK ==> length == nibble + MINMATCH)
    ensures length <= MatchWidth(length, offset, nibble) < length + 32 && 8 <= MatchWidth(length, offset, nibble)
  {
  }

  /** The output buffer after the literals of a sequence, including what is scribbled behind them. */
  function LiteralsLaid(src: seq<byte>, buf: seq<byte>, ip: nat, op: nat, step: FastStep): (r: seq<byte>)
    requires ip < |src| && op + FASTLOOP_SAFE_DISTANCE <= |buf| && (step.ToMatch? || step.Whole?)
    requires step == FastParse(src, |buf|, ip, op)
    ensures |r| == |buf| && r[..op + step.litLen] == buf[..op] + src[step.from..step.from + step.litLen]
  {
    var w := LiteralWidth(step.litLen, src[ip] / 16);
    LaidPrefix(buf, op, src, step.from, w, step.litLen);
    Overwrite(buf, op, src[step.from..step.from + w])
  }

  lemma LaidPrefix(buf: seq<byte>, op: nat, src: seq<byte>, from: nat, w: nat, n: nat)
    requires n <= w && op + w <= |buf| && from + w <= |src|
    ensures Overwrite(buf, op, src[from..from + w])[..op + n] == buf[..op] + src[from..from + n]
  {
    var p := src[from..from + w];
    OverwriteParts(buf, op, p);
    var r := Overwrite(buf, op, p);
    assert r[..op + n] == r[..op + w][..op + n] == (buf[..op] + p)[..op + n];
    assert p[..n] == src[from..from + n];
  }

  /** The buffer after a match copied with `w` bytes. */
  function Continued(buf: seq<byte>, op: nat, w: nat, offset: nat): (r: seq<byte>)
    requires offset <= op && MINMATCH <= w && op + w <= |buf|
    ensures |r| == |buf|
  {
    Overlapped(buf, op, offset, w) + buf[op + w..]
  }

  /** The buffer after a whole sequence. */
  function AfterWhole(src: seq<byte>, buf: seq<byte>, ip: nat, op: nat, step: FastStep): (r: seq<byte>)
    requires ip < |src| && op + FASTLOOP_SAFE_DISTANCE <= |buf| && step.Whole?
    requires step == FastParse(src, |buf|, ip, op)
    ensures |r| == |buf|
  {
    Widths(step.matchLength, step.offset, src[ip] % 16);
    Continued(LiteralsLaid(src, buf, ip, op, step), op + step.litLen,
        MatchWidth(step.matchLength, step.offset, src[ip] % 16), step.offset)
  }

  /** What is returned for the rest of the block from inside the fast loop, when the whole output
      buffer holds `buf`. */
  function FastDecodeFrom(src: seq<byte>, buf: seq<byte>, ip: nat, op: nat): (r: Option<seq<byte>>)
    requires ip < |src| && op + FASTLOOP_SAFE_DISTANCE <= |buf|
    decreases |src| - ip
  {
    var step := FastParse(src, |buf|, ip, op);
    match step
    case Stop => None
    case ToLiterals(_, _) => SafeDecodeFrom(src, |buf|, ip, buf[..op])
    case ToMatch(_, litLen, offset, matchLength, next) =>
      if op + litLen + matchLength > |buf| - LASTLITERALS then None
      else SafeDecodeFrom(src, |buf|, next,
          Overlapped(LiteralsLaid(src, buf, ip, op, step), op + litLen, offset, matchLength))
    case Whole(_, litLen, _, matchLength, next) =>
      FastDecodeFrom(src, AfterWhole(src, buf, ip, op, step), next, op + litLen + matchLength)
  }

  /** The result of LZ4_decompress_safe with the fast loop, for an output buffer that holds `buf`. */
  function FastDecode(src: seq<byte>, buf: seq<byte>): Option<seq<byte>> {
    if buf == [] || src == [] || |buf| < FASTLOOP_SAFE_DISTANCE then SafeDecode(src, |buf|)
    else FastDecodeFrom(src, buf, 0, 0)
  }

  // ---------------------------------------------------------------- against the main loop

  /** A turn of the fast loop decides what a turn of the main loop would. */
  lemma SameDecision(src: seq<byte>, cap: nat, ip: nat, o: nat)
    requires ip < |src| && o + FASTLOOP_SAFE_DISTANCE <= cap
    ensures var fast, safe := FastParse(src, cap, ip, o), SafeStep(src, cap, ip, o);
      match fast
      case Stop => safe == Reject
      case ToLiterals(_, _) => !TakesShortcut(src, cap, ip, o)
      case ToMatch(from, litLen, offset, matchLength, next) =>
        safe == if o + litLen + matchLength > cap - LASTLITERALS then Reject
            else Match(from, litLen, offset, matchLength, next)
      case Whole(from, litLen, offset, matchLength, next) => safe == Match(from, litLen, offset, matchLength, next)
  {
    hide ReadVariableLength;
  }

  /** What the output holds has no say in whether, or how much, the main loop decodes. */
  lemma {:induction false} SameLength(src: seq<byte>, cap: nat, ip: nat, a: seq<byte>, b: seq<byte>)
    requires ip < |src| && |a| == |b| <= cap
    ensures var r, s := SafeDecodeFrom(src, cap, ip, a), SafeDecodeFrom(src, cap, ip, b);
      (r.Some? <==> s.Some?) && (r.Some? ==> |r.value| == |s.value|)
    decreases |src| - ip
  {
    hide SafeStep;
    var step := SafeStep(src, cap, ip, |a|);
    if step.Match? {
      SameLength(src, cap, step.next, CopyMatch(WithLiterals(step, src, a), step.offset, step.matchLength),
                 CopyMatch(WithLiterals(step, src, b), step.offset, step.matchLength));
    }
  }

  /** What has been decoded stays. */
  lemma {:induction false} PrefixStays(src: seq<byte>, cap: nat, ip: nat, out: seq<byte>)
    requires ip < |src| && |out| <= cap && SafeDecodeFrom(src, cap, ip, out).Some?
    ensures out <= SafeDecodeFrom(src, cap, ip, out).value
    decreases |src| - ip
  {
    hide SafeStep;
    var step := SafeStep(src, cap, ip, |out|);
    if step.Match? {
      var longer := WithLiterals(step, src, out);
      var next := CopyMatch(longer, step.offset, step.matchLength);
      CopyMatchBytes(longer, step.offset, step.matchLength);
      PrefixStays(src, cap, step.next, next);
      assert next[..|out|] == next[..|longer|][..|out|] == out;
    }
  }

  /** Every match at offset 0 that the fast loop meets finds four zeros in the buffer. */
  predicate ZeroFilled(src: seq<byte>, buf: seq<byte>, ip: nat, op: nat)
    requires ip < |src| && op + FASTLOOP_SAFE_DISTANCE <= |buf|
    decreases |src| - ip
  {
    var step := FastParse(src, |buf|, ip, op);
    if step.ToMatch? then
      op + step.litLen + step.matchLength > |buf| - LASTLITERALS || FindsZeros(src, buf, ip, op, step)
    else if step.Whole? then
      FindsZeros(src, buf, ip, op, step)
          && ZeroFilled(src, AfterWhole(src, buf, ip, op, step), step.next, op + step.litLen + step.matchLength)
    else true
  }

  predicate FindsZeros(src: seq<byte>, buf: seq<byte>, ip: nat, op: nat, step: FastStep)
    requires ip < |src| && op + FASTLOOP_SAFE_DISTANCE <= |buf| && (step.ToMatch? || step.Whole?)
    requires step == FastParse(src, |buf|, ip, op)
  {
    var o := op + step.litLen;
    step.offset == 0 ==> LiteralsLaid(src, buf, ip, op, step)[o..o + 4] == [0, 0, 0, 0]
  }

  lemma CopyMatchPrefix(out: seq<byte>, offset: nat, w: nat, n: nat)
    requires offset <= |out| && n <= w
    ensures CopyMatch(out, offset, w)[..|out| + n] == CopyMatch(out, offset, n)
  {
    var r := CopyMatch(out, offset, w);
    CopyMatchBytes(out, offset, w);
    RepeatsIsCopyMatch(r, |out|, |out| + n, offset);
  }

  lemma OverlappedPrefix(buf: seq<byte>, op: nat, offset: nat, w: nat, n: nat)
    requires offset <= op && op + 4 <= |buf| && MINMATCH <= n <= w
    ensures Overlapped(buf, op, offset, w)[..op + n] == Overlapped(buf, op, offset, n)
    ensures Overlapped(buf, op, offset, n)[..op] == buf[..op]
    ensures offset == 0 ==> Overlapped(buf, op, offset, n)[op..op + 4] == buf[op..op + 4]
  {
    if offset > 0 {
      CopyMatchPrefix(buf[..op], offset, w, n);
      CopyMatchBytes(buf[..op], offset, n);
    } else {
      CopyMatchPrefix(buf[..op + 4], 4, w - 4, n - 4);
      CopyMatchBytes(buf[..op + 4], 4, n - 4);
      var r := Overlapped(buf, op, offset, n);
      assert r[..op] == r[..op + 4][..op] && r[op..op + 4] == r[..op + 4][op..];
    }
  }

  /** The output after the sequence, as the fast loop leaves it. */
  function Output(src: seq<byte>, buf: seq<byte>, ip: nat, op: nat, step: FastStep): (out: seq<byte>)
    requires ip < |src| && op + FASTLOOP_SAFE_DISTANCE <= |buf| && (step.ToMatch? || step.Whole?)
    requires step == FastParse(src, |buf|, ip, op)
    ensures |out| == op + step.litLen + step.matchLength
  {
    Overlapped(LiteralsLaid(src, buf, ip, op, step), op + step.litLen, step.offset, step.matchLength)
  }

  lemma OutputOfWhole(src: seq<byte>, buf: seq<byte>, ip: nat, op: nat, step: FastStep)
    requires ip < |src| && op + FASTLOOP_SAFE_DISTANCE <= |buf| && step.Whole? && step == FastParse(src, |buf|, ip, op)
    ensures AfterWhole(src, buf, ip, op, step)[..op + step.litLen + step.matchLength] == Output(src, buf, ip, op, step)
  {
    hide FastParse, Overlapped, MatchWidth, LiteralsLaid;
    var laid, o := LiteralsLaid(src, buf, ip, op, step), op + step.litLen;
    Widths(step.matchLength, step.offset, src[ip] % 16);
    var w := MatchWidth(step.matchLength, step.offset, src[ip] % 16);
    OverlappedPrefix(laid, o, step.offset, w, step.matchLength);
    var r := AfterWhole(src, buf, ip, op, step);
    assert r[..o + step.matchLength] == r[..o + w][..o + step.matchLength];
  }

  lemma OverlappedOrCopied(buf: seq<byte>, op: nat, offset: nat, length: nat)
    requires offset <= op && op + 4 <= |buf| && MINMATCH <= length
    ensures var out, copied := Overlapped(buf, op, offset, length), CopyMatch(buf[..op], offset, length);
      |out| == |copied| && ((offset == 0 ==> buf[op..op + 4] == [0, 0, 0, 0]) <==> out == copied)
  {
    hide CopyMatch;
    if offset == 0 {
      if buf[op..op + 4] == [0, 0, 0, 0] {
        ZerosOverlap(buf, op, length);
      } else {
        OverlappedPrefix(buf, op, 0, length, length);
        CopyMatchBytes(buf[..op], 0, length);
        assert CopyMatch(buf[..op], 0, length)[op..op + 4] == [0, 0, 0, 0];
      }
    }
  }

  lemma OutputOrCopied(laid: seq<byte>, before: seq<byte>, literals: seq<byte>, offset: nat, length: nat)
    requires var o := |before| + |literals|;
      offset <= o && o + 4 <= |laid| && laid[..o] == before + literals && MINMATCH <= length
    ensures var o, copied := |before| + |literals|, CopyMatch(before + literals, offset, length);
      var out := Overlapped(laid, o, offset, length);
      && before <= out && |out| == |copied| && ((offset == 0 ==> laid[o..o + 4] == [0, 0, 0, 0]) <==> out == copied)
  {
    hide CopyMatch, Overlapped;
    var o := |before| + |literals|;
    OverlappedPrefix(laid, o, offset, length, length);
    OverlappedOrCopied(laid, o, offset, length);
    var out := Overlapped(laid, o, offset, length);
    assert out[..|before|] == out[..o][..|before|] == (before + literals)[..|before|] == before;
  }

  lemma LaidStart(src: seq<byte>, buf: seq<byte>, ip: nat, op: nat, step: FastStep)
    requires ip < |src| && op + FASTLOOP_SAFE_DISTANCE <= |buf| && (step.ToMatch? || step.Whole?)
    requires step == FastParse(src, |buf|, ip, op)
    ensures var laid, o := LiteralsLaid(src, buf, ip, op, step), op + step.litLen;
      && o + 4 <= |laid| == |buf| && laid[..o] == buf[..op] + src[step.from..step.from + step.litLen]
      && step.offset <= o && MINMATCH <= step.matchLength
  {
  }

  /** The fast loop's output is the main loop's exactly when it finds zeros where it needs them;
      either way it goes on from what was there. */
  lemma SameOutput(src: seq<byte>, buf: seq<byte>, ip: nat, op: nat, step: FastStep)
    requires ip < |src| && op + FASTLOOP_SAFE_DISTANCE <= |buf| && (step.ToMatch? || step.Whole?)
    requires step == FastParse(src, |buf|, ip, op)
    ensures var copied := CopyMatch(buf[..op] + src[step.from..step.from + step.litLen], step.offset, step.matchLength);
      && buf[..op] <= Output(src, buf, ip, op, step) && |Output(src, buf, ip, op, step)| == |copied|
      && (FindsZeros(src, buf, ip, op, step) <==> Output(src, buf, ip, op, step) == copied)
  {
    hide FastParse, CopyMatch, Overlapped, LiteralsLaid;
    LaidStart(src, buf, ip, op, step);
    var laid, literals := LiteralsLaid(src, buf, ip, op, step), src[step.from..step.from + step.litLen];
    OutputOrCopied(laid, buf[..op], literals, step.offset, step.matchLength);
  }

  /** With and without the fast loop the same blocks are accepted, with the same length. The bytes
      are the same too if and only if every match at offset 0 in the fast loop finds four zeros. */
  lemma {:induction false} FastIsSafe(src: seq<byte>, buf: seq<byte>, ip: nat, op: nat)
    requires ip < |src| && op + FASTLOOP_SAFE_DISTANCE <= |buf|
    ensures var r, s := FastDecodeFrom(src, buf, ip, op), SafeDecodeFrom(src, |buf|, ip, buf[..op]);
      && (r.Some? <==> s.Some?) && (r.Some? ==> |r.value| == |s.value| && buf[..op] <= r.value)
      && (r == s <==> s.None? || ZeroFilled(src, buf, ip, op))
    decreases |src| - ip
  {
    hide FastParse, SafeStep, CopyMatch, LiteralsLaid, FindsZeros, Overlapped;
    var step := FastParse(src, |buf|, ip, op);
    SameDecision(src, |buf|, ip, op);
    match step
    case Stop =>
    case ToLiterals(_, _) => PrefixOrNone(src, |buf|, ip, buf[..op]);
    case ToMatch(_, _, _, _, _) => ToMatchIsSafe(src, buf, ip, op, step);
    case Whole(_, _, _, _, _) => WholeIsSafe(src, buf, ip, op, step);
  }

  lemma PrefixOrNone(src: seq<byte>, cap: nat, ip: nat, out: seq<byte>)
    requires ip < |src| && |out| <= cap
    ensures SafeDecodeFrom(src, cap, ip, out).Some? ==> out <= SafeDecodeFrom(src, cap, ip, out).value
  {
    if SafeDecodeFrom(src, cap, ip, out).Some? { PrefixStays(src, cap, ip, out); }
  }

  lemma PrefixesDiffer(a: seq<byte>, b: seq<byte>, r: Option<seq<byte>>, s: Option<seq<byte>>)
    requires |a| == |b| && (r.Some? ==> a <= r.value) && (s.Some? ==> b <= s.value) && (r.Some? <==> s.Some?)
    ensures r == s && r.Some? ==> a == b
  {
  }

  lemma DifferentOn(src: seq<byte>, cap: nat, ip: nat, a: seq<byte>, b: seq<byte>)
    requires ip < |src| && |a| == |b| <= cap
    ensures var r, s := SafeDecodeFrom(src, cap, ip, a), SafeDecodeFrom(src, cap, ip, b);
      && (r.Some? <==> s.Some?) && (r.Some? ==> |r.value| == |s.value| && a <= r.value && b <= s.value)
      && (a != b && r.Some? ==> r != s)
  {
    hide SafeDecodeFrom;
    SameLength(src, cap, ip, a, b);
    PrefixOrNone(src, cap, ip, a);
    PrefixOrNone(src, cap, ip, b);
    PrefixesDiffer(a, b, SafeDecodeFrom(src, cap, ip, a), SafeDecodeFrom(src, cap, ip, b));
  }

  lemma ToMatchUnfolds(src: seq<byte>, buf: seq<byte>, ip: nat, op: nat, step: FastStep)
    requires ip < |src| && op + FASTLOOP_SAFE_DISTANCE <= |buf| && step == FastParse(src, |buf|, ip, op)
             && step.ToMatch?
    ensures var copied := CopyMatch(buf[..op] + src[step.from..step.from + step.litLen], step.offset, step.matchLength);
      var r, s := FastDecodeFrom(src, buf, ip, op), SafeDecodeFrom(src, |buf|, ip, buf[..op]);
      if op + step.litLen + step.matchLength > |buf| - LASTLITERALS then r == s == None
      else
        && step.next < |src| && r == SafeDecodeFrom(src, |buf|, step.next, Output(src, buf, ip, op, step))
        && s == SafeDecodeFrom(src, |buf|, step.next, copied)
        && (ZeroFilled(src, buf, ip, op) <==> FindsZeros(src, buf, ip, op, step))
  {
    hide FastParse, SafeStep, CopyMatch, LiteralsLaid, FindsZeros, Overlapped;
    SameDecision(src, |buf|, ip, op);
  }

  lemma ToMatchIsSafe(src: seq<byte>, buf: seq<byte>, ip: nat, op: nat, step: FastStep)
    requires ip < |src| && op + FASTLOOP_SAFE_DISTANCE <= |buf| && step == FastParse(src, |buf|, ip, op)
             && step.ToMatch?
    ensures var r, s := FastDecodeFrom(src, buf, ip, op), SafeDecodeFrom(src, |buf|, ip, buf[..op]);
      && (r.Some? <==> s.Some?) && (r.Some? ==> |r.value| == |s.value| && buf[..op] <= r.value)
      && (r == s <==> s.None? || ZeroFilled(src, buf, ip, op))
  {
    hide FastParse, SafeStep, CopyMatch, LiteralsLaid, FindsZeros, Output, ZeroFilled, FastDecodeFrom, SafeDecodeFrom,
      Overlapped;
    var copied := CopyMatch(buf[..op] + src[step.from..step.from + step.litLen], step.offset, step.matchLength);
    ToMatchUnfolds(src, buf, ip, op, step);
    if op + step.litLen + step.matchLength <= |buf| - LASTLITERALS {
      SameOutput(src, buf, ip, op, step);
      DifferentOn(src, |buf|, step.next, Output(src, buf, ip, op, step), copied);
    }
  }

  lemma WholeIsSafe(src: seq<byte>, buf: seq<byte>, ip: nat, op: nat, step: FastStep)
    requires ip < |src| && op + FASTLOOP_SAFE_DISTANCE <= |buf| && step == FastParse(src, |buf|, ip, op) && step.Whole?
    ensures var r, s := FastDecodeFrom(src, buf, ip, op), SafeDecodeFrom(src, |buf|, ip, buf[..op]);
      && (r.Some? <==> s.Some?) && (r.Some? ==> |r.value| == |s.value| && buf[..op] <= r.value)
      && (r == s <==> s.None? || ZeroFilled(src, buf, ip, op))
    decreases |src| - ip, 0
  {
    hide FastParse, SafeStep, CopyMatch, LiteralsLaid, FindsZeros, AfterWhole, Output, ZeroFilled, FastDecodeFrom,
      SafeDecodeFrom, Overlapped;
    var copied := CopyMatch(buf[..op] + src[step.from..step.from + step.litLen], step.offset, step.matchLength);
    var after, out, next := AfterWhole(src, buf, ip, op, step), Output(src, buf, ip, op, step),
        op + step.litLen + step.matchLength;
    WholeUnfolds(src, buf, ip, op, step);
    SameOutput(src, buf, ip, op, step);
    OutputOfWhole(src, buf, ip, op, step);
    FastIsSafe(src, after, step.next, next);
    DifferentOn(src, |buf|, step.next, out, copied);
    PrefixOfLonger(buf[..op], out, FastDecodeFrom(src, after, step.next, next));
    PrefixesDiffer(out, copied, FastDecodeFrom(src, after, step.next, next),
        SafeDecodeFrom(src, |buf|, step.next, copied));
  }

  lemma WholeUnfolds(src: seq<byte>, buf: seq<byte>, ip: nat, op: nat, step: FastStep)
    requires ip < |src| && op + FASTLOOP_SAFE_DISTANCE <= |buf| && step == FastParse(src, |buf|, ip, op) && step.Whole?
    ensures var copied := CopyMatch(buf[..op] + src[step.from..step.from + step.litLen], step.offset, step.matchLength);
      var after, next := AfterWhole(src, buf, ip, op, step), op + step.litLen + step.matchLength;
      && FastDecodeFrom(src, buf, ip, op) == FastDecodeFrom(src, after, step.next, next)
      && SafeDecodeFrom(src, |buf|, ip, buf[..op]) == SafeDecodeFrom(src, |buf|, step.next, copied)
      && (ZeroFilled(src, buf, ip, op) <==>
         FindsZeros(src, buf, ip, op, step) && ZeroFilled(src, after, step.next, next))
  {
    hide FastParse, SafeStep, CopyMatch, LiteralsLaid, FindsZeros, AfterWhole;
    SameDecision(src, |buf|, ip, op);
  }

  lemma PrefixOfLonger(a: seq<byte>, b: seq<byte>, r: Option<seq<byte>>)
    requires a <= b && (r.Some? ==> b <= r.value)
    ensures r.Some? ==> a <= r.value
  {
  }

  /** The fast loop runs at all, and meets a match at offset 0 where the buffer does not hold zeros. */
  predicate RepeatsScribble(src: seq<byte>, buf: seq<byte>) {
    src != [] && |buf| >= FASTLOOP_SAFE_DISTANCE && !ZeroFilled(src, buf, 0, 0)
  }

  /** The two builds of LZ4_decompress_safe accept the same blocks and return the same number of
      bytes; the bytes differ exactly if the fast loop repeats what was scribbled. */
  lemma BuildsAgree(src: seq<byte>, buf: seq<byte>)
    ensures var r, s := FastDecode(src, buf), SafeDecode(src, |buf|);
      && (r.Some? <==> s.Some?) && (r.Some? ==> |r.value| == |s.value|)
      && (r != s <==> s.Some? && RepeatsScribble(src, buf))
  {
    hide ZeroFilled, FastDecodeFrom, SafeDecodeFrom;
    if src != [] && |buf| >= FASTLOOP_SAFE_DISTANCE {
      FastIsSafe(src, buf, 0, 0);
      assert buf[..0] == [];
    }
  }

  /** No match of the block is at offset 0. */
  predicate NoZeroOffset(src: seq<byte>, cap: nat, ip: nat, o: nat)
    requires ip < |src| && o <= cap
    decreases |src| - ip
  {
    var step := SafeStep(src, cap, ip, o);
    step.Match? ==> step.offset > 0 && NoZeroOffset(src, cap, step.next, o + step.litLen + step.matchLength)
  }

  lemma {:induction false} NothingToFill(src: seq<byte>, buf: seq<byte>, ip: nat, op: nat)
    requires ip < |src| && op + FASTLOOP_SAFE_DISTANCE <= |buf| && NoZeroOffset(src, |buf|, ip, op)
    ensures ZeroFilled(src, buf, ip, op)
    decreases |src| - ip
  {
    hide FastParse, SafeStep, AfterWhole, LiteralsLaid;
    SameDecision(src, |buf|, ip, op);
    var step := FastParse(src, |buf|, ip, op);
    if step.Whole? {
      NothingToFill(src, AfterWhole(src, buf, ip, op, step), step.next, op + step.litLen + step.matchLength);
    }
  }

  /** Offset 0 is the only difference. */
  lemma AgreeWithoutZeroOffset(src: seq<byte>, buf: seq<byte>)
    requires src == [] || NoZeroOffset(src, |buf|, 0, 0)
    ensures FastDecode(src, buf) == SafeDecode(src, |buf|)
  {
    hide NoZeroOffset, ZeroFilled;
    BuildsAgree(src, buf);
    if RepeatsScribble(src, buf) { NothingToFill(src, buf, 0, 0); }
  }

  /** One literal, a match of 4 bytes at offset 0, and 20 closing literals. */
  function ZeroOffsetBlock(): seq<byte> {
    [0x10, 65, 0, 0, 0xF0, 5, 1, 2, 3, 4, 5, 6, 7, 8, 9, 10, 11, 12, 13, 14, 15, 16, 17, 18, 19, 20]
  }

  lemma ZeroOffsetBlockSteps()
    ensures var src := ZeroOffsetBlock();
      SafeStep(src, 128, 0, 0) == Match(1, 1, 0, 4, 4) && SafeStep(src, 128, 4, 5) == Final(6)
  {
    assert ReadVariableLength(ZeroOffsetBlock(), 5, 11, 0) == VariableLength(5, 6, false);
  }

  lemma ZeroOffsetBlockIsAccepted()
    ensures SafeDecode(ZeroOffsetBlock(), 128).Some?
  {
    hide CopyMatch, SafeStep;
    ZeroOffsetBlockSteps();
    var src := ZeroOffsetBlock();
    var out := CopyMatch(WithLiterals(SafeStep(src, 128, 0, 0), src, []), 0, 4);
    assert |out| == 5;
    assert SafeDecodeFrom(src, 128, 4, out) == Some(out + src[6..]);
  }

  lemma ZeroOffsetBlockParse()
    ensures FastParse(ZeroOffsetBlock(), 128, 0, 0) == Whole(1, 1, 0, 4, 4)
  {
  }

  lemma ZeroOffsetBlockRepeats(buf: seq<byte>)
    requires |buf| == 128
    ensures RepeatsScribble(ZeroOffsetBlock(), buf)
  {
    hide AfterWhole, FastParse;
    var src := ZeroOffsetBlock();
    ZeroOffsetBlockParse();
    var step := FastParse(src, 128, 0, 0);
    var laid := LiteralsLaid(src, buf, 0, 0, step);
    assert LiteralWidth(1, src[0] / 16) == 16;
    assert laid == Overwrite(buf, 0, src[1..17]);
    OverwriteParts(buf, 0, src[1..17]);
    assert buf[..0] + src[1..17] == src[1..17];
    assert laid[..16] == src[1..17];
    assert src[4] == 0xF0 && src[1..17][3] == src[4];
    assert laid[3] == laid[..16][3] == 0xF0;
    assert laid[1..5][2] == 0xF0;
  }

  /** There the builds differ, whatever the buffer held. */
  lemma BuildsDiffer(buf: seq<byte>)
    requires |buf| == 128
    ensures SafeDecode(ZeroOffsetBlock(), 128).Some?
            && FastDecode(ZeroOffsetBlock(), buf) != SafeDecode(ZeroOffsetBlock(), 128)
  {
    hide ZeroOffsetBlock, SafeDecode, FastDecode, RepeatsScribble;
    BuildsAgree(ZeroOffsetBlock(), buf);
    ZeroOffsetBlockIsAccepted();
    ZeroOffsetBlockRepeats(buf);
  }

  // ---------------------------------------------------------------- the copies of the fast loop

  /** A buffer in which `w` bytes were copied at `offset`, and nothing else changed. */
  lemma OverlapsIsContinued(before: seq<byte>, after: seq<byte>, op: nat, w: nat, offset: nat)
    requires offset <= op && MINMATCH <= w && op + w <= |before| == |after|
    requires forall k :: 0 <= k < op || op + w <= k < |after| ==> after[k] == before[k]
    requires offset == 0 ==> forall k :: op <= k < op + 4 ==> after[k] == before[k]
    requires Overlaps(after, op, op + w, offset)
    ensures after == Continued(before, op, w, offset)
  {
    hide Overlaps, Overlapped;
    assert after[..op] == before[..op];
    if offset == 0 { assert after[..op + 4] == before[..op + 4]; }
    OverlapsIsOverlapped(before, after, op, offset, w);
    assert after == after[..op + w] + after[op + w..];
    assert after[op + w..] == before[op + w..];
  }

  lemma OneMoreStride(n: nat, w: nat)
    requires n % 8 == 0 && w % 8 == 0 && n < w
    ensures n + 8 <= w && (n + 8) % 8 == 0
  {
  }

  /** At distances 1, 2 and 4, LZ4_memcpy_using_offset lays down one pattern of 8 bytes again and again. */
  method LayPattern(dst: array<byte>, op: nat, cpy: nat, v: seq<byte>)
    requires |v| == 8 && op < cpy && op + Strides(cpy - op, 8) <= dst.Length
    modifies dst
    ensures forall k :: 0 <= k < op || op + Strides(cpy - op, 8) <= k < dst.Length ==> dst[k] == old(dst[k])
    ensures forall k :: op <= k < op + 8 ==> dst[k] == v[k - op]
    ensures forall k :: op + 8 <= k < op + Strides(cpy - op, 8) ==> dst[k] == dst[k - 8]
  {
    hide Strides;
    CopyFrom(dst, op, v, 0, 8);
    var d := op + 8;
    while d < cpy
      invariant op + 8 <= d <= op + Strides(cpy - op, 8) && (d - op) % 8 == 0
      invariant forall k :: 0 <= k < op || d <= k < dst.Length ==> dst[k] == old(dst[k])
      invariant forall k :: op <= k < op + 8 ==> dst[k] == v[k - op]
      invariant forall k :: op + 8 <= k < d ==> dst[k] == dst[k - 8]
      invariant forall k :: d - 8 <= k < d ==> dst[k] == v[k - (d - 8)]
    {
      OneMoreStride(d - op, Strides(cpy - op, 8));
      CopyFrom(dst, d, v, 0, 8);
      d := d + 8;
    }
  }

  /** The pattern of 8 bytes for a distance of 1, 2 or 4. */
  method Pattern(dst: array<byte>, match_: nat, offset: nat) returns (v: seq<byte>)
    requires (offset == 1 || offset == 2 || offset == 4) && match_ + offset <= dst.Length
    ensures |v| == 8 && v[..offset] == dst[match_..match_ + offset] && forall k :: offset <= k < 8 ==>
      v[k] == v[k - offset]
  {
    var p := dst[match_..match_ + offset];
    if offset == 1 {
      v := p + p + p + p + p + p + p + p;
    } else if offset == 2 {
      v := p + p;
      v := v + v;
    } else {
      v := p + p;
    }
  }

  lemma PatternOverlaps(before: seq<byte>, after: seq<byte>, op: nat, hi: nat, offset: nat, v: seq<byte>)
    requires (offset == 1 || offset == 2 || offset == 4) && offset <= op && op + 8 <= hi <= |after| == |before|
             && |v| == 8
    requires forall k :: 0 <= k < op ==> after[k] == before[k]
    requires v[..offset] == before[op - offset..op] && forall k :: offset <= k < 8 ==> v[k] == v[k - offset]
    requires forall k :: op <= k < op + 8 ==> after[k] == v[k - op]
    requires forall k :: op + 8 <= k < hi ==> after[k] == after[k - 8]
    ensures Overlaps(after, op, hi, offset)
  {
    forall k | op <= k < op + 8 ensures after[k] == after[k - offset] {
      assert after[k] == v[k - op];
      if k - op < offset {
        assert v[k - op] == v[..offset][k - op] == before[op - offset..op][k - op] == before[k - offset];
      } else {
        assert after[k - offset] == v[k - op - offset];
      }
    }
    LongDistanceCopy(after, op, 8, hi, offset, 8, 8 / offset - 1);
  }

  /** LZ4_memcpy_using_offset. */
  method MemcpyUsingOffset(dst: array<byte>, op: nat, offset: nat, cpy: nat)
    requires offset < 16 && offset <= op && op + MINMATCH <= cpy
             && op + MatchWidth(cpy - op, offset, ML_MASK) <= dst.Length
    modifies dst
    ensures dst[..] == Continued(old(dst[..]), op, MatchWidth(cpy - op, offset, ML_MASK), offset)
  {
    hide Overlaps, Continued;
    ghost var before, w := dst[..], MatchWidth(cpy - op, offset, ML_MASK);
    if offset == 1 || offset == 2 || offset == 4 {
      var v := Pattern(dst, op - offset, offset);
      LayPattern(dst, op, cpy, v);
      PatternOverlaps(before, dst[..], op, op + w, offset, v);
    } else {
      var match_, periods := CopyFirstEight(dst, op, offset);
      ghost var first := dst[..];
      WildCopy8Within(dst, op + 8, match_, cpy);
      RestOverlaps(first, dst[..], op, offset, op + w, op + 8 - match_, periods);
    }
    OverlapsIsContinued(before, dst[..], op, w, offset);
  }

  /** A short match at a distance of at least 8: 8, 8 and 2 bytes. */
  method CopyEighteenFast(dst: array<byte>, op: nat, offset: nat)
    requires 8 <= offset <= op && op + 18 <= dst.Length
    modifies dst
    ensures dst[..] == Continued(old(dst[..]), op, 18, offset)
  {
    hide Overlapped, Continued;
    ghost var before := dst[..];
    var match_ := op - offset;
    CopyWithin(dst, op, match_, 8);
    CopyWithin(dst, op + 8, match_ + 8, 8);
    CopyWithin(dst, op + 16, match_ + 16, 2);
    OverlapsIsContinued(before, dst[..], op, 18, offset);
  }

  /** The match of a whole sequence. */
  method CopyMatchFast(dst: array<byte>, op: nat, offset: nat, length: nat, nibble: nat)
    requires offset <= op && MINMATCH <= length && nibble <= ML_MASK && op + length + 32 <= dst.Length
    requires nibble != ML_MASK ==> length == nibble + MINMATCH
    modifies dst
    ensures dst[..] == Continued(old(dst[..]), op, MatchWidth(length, offset, nibble), offset)
  {
    hide Overlapped, Continued;
    ghost var before, w := dst[..], MatchWidth(length, offset, nibble);
    Widths(length, offset, nibble);
    var match_ := op - offset;
    if nibble != ML_MASK && offset >= 8 {
      CopyEighteenFast(dst, op, offset);
      return;
    }
    var cpy := op + length;
    if offset < 16 {
      MemcpyUsingOffset(dst, op, offset, cpy);
    } else {
      WildCopy32Within(dst, op, match_, cpy);
      OverlapsIsContinued(before, dst[..], op, w, offset);
    }
  }

  // ---------------------------------------------------------------- the decoder

  /** How a turn of the fast loop ends. */
  datatype FastTurn =
    | OutputError(at: nat)
    | JumpToLiterals(length: nat, ip: nat)
    | JumpToMatch(ip: nat, op: nat, offset: nat, length: nat)
    | GoOn(ip: nat, op: nat)

  /** The turn did to a buffer that held `buf` what `step` says. */
  predicate FastTurnOf(t: FastTurn, step: FastStep, src: seq<byte>, buf: seq<byte>, ip: nat, op: nat, dst: array<byte>)
    requires ip < |src| && op + FASTLOOP_SAFE_DISTANCE <= |buf| && step == FastParse(src, |buf|, ip, op)
    reads dst
  {
    match step
    case Stop => t.OutputError?
    case ToLiterals(litLen, from) => t == JumpToLiterals(litLen, from) && dst[..] == buf
    case ToMatch(_, litLen, offset, matchLength, next) =>
      t == JumpToMatch(next, op + litLen, offset, matchLength) && dst[..] == LiteralsLaid(src, buf, ip, op, step)
    case Whole(_, litLen, _, matchLength, next) =>
      t == GoOn(next, op + litLen + matchLength) && dst[..] == AfterWhole(src, buf, ip, op, step)
  }

  /** Literals copied 32 bytes at a time, or 16 at once. */
  method CopyLiteralsFast(src: seq<byte>, dst: array<byte>, op: nat, from: nat, length: nat, nibble: nat)
    requires op + LiteralWidth(length, nibble) <= dst.Length && from + LiteralWidth(length, nibble) <= |src|
    modifies dst
    ensures dst[..] == Overwrite(old(dst[..]), op, src[from..from + LiteralWidth(length, nibble)])
  {
    if nibble == RUN_MASK {
      WildCopy32From(dst, op, src, from, op + length);
    } else {
      CopyFrom(dst, op, src, from, 16);
    }
  }

  lemma ShortLengths(src: seq<byte>, i: nat, nibble: nat)
    requires i < |src| && 4 <= |src|
    ensures nibble != RUN_MASK ==> LiteralLength(src, i, nibble) == Some((nibble, i))
    ensures nibble != ML_MASK ==> MatchLength(src, i, nibble) == Some((nibble + MINMATCH, i))
  {
  }

  /** The literals are such that the fast loop copies them. */
  predicate FastLiterals(src: seq<byte>, cap: nat, ip: nat, op: nat, litLen: nat, from: nat)
    requires ip < |src|
  {
    && ip < from && LiteralLength(src, ip + 1, src[ip] / 16) == Some((litLen, from))
    && (if src[ip] / 16 == RUN_MASK then 0 < litLen && op + litLen + 32 <= cap && from + litLen + 32 <= |src|
        else litLen == src[ip] / 16 && from + 17 <= |src|)
  }

  /** The match behind them. */
  method FastMatch(src: seq<byte>, dst: array<byte>, ip: nat, op: nat, litLen: nat, from: nat, ghost buf: seq<byte>)
    returns (t: FastTurn)
    requires ip < |src| && op + FASTLOOP_SAFE_DISTANCE <= dst.Length == |buf|
             && FastLiterals(src, dst.Length, ip, op, litLen, from)
    requires op + LiteralWidth(litLen, src[ip] / 16) <= |buf| && from + LiteralWidth(litLen, src[ip] / 16) <= |src|
    requires dst[..] == Overwrite(buf, op, src[from..from + LiteralWidth(litLen, src[ip] / 16)])
    modifies dst
    ensures FastTurnOf(t, FastParse(src, dst.Length, ip, op), src, buf, ip, op, dst)
  {
    hide LiteralLength, MatchLength, Continued, LiteralWidth, Overwrite;
    var o, offset := op + litLen, Le16(src, from + litLen);
    if offset > o { return OutputError(from + litLen + 2); }
    var code := ReadMatchLength(src, from + litLen + 2, src[ip] % 16);
    if code == None { return OutputError(from + litLen + 2); }
    var (length, next) := code.value;
    if o + length >= dst.Length - FASTLOOP_SAFE_DISTANCE { return JumpToMatch(next, o, offset, length); }
    ShortLengths(src, from + litLen + 2, src[ip] % 16);
    CopyMatchFast(dst, o, offset, length, src[ip] % 16);
    t := GoOn(next, o + length);
  }

  method FastSequence(src: seq<byte>, dst: array<byte>, ip: nat, op: nat) returns (t: FastTurn)
    requires ip < |src| && op + FASTLOOP_SAFE_DISTANCE <= dst.Length
    modifies dst
    ensures FastTurnOf(t, FastParse(src, dst.Length, ip, op), src, old(dst[..]), ip, op, dst)
  {
    hide MatchLength, ReadVariableLength, AfterWhole, LiteralsLaid;
    var nibble: nat := src[ip] / 16;
    var literals := ReadLiteralLength(src, ip + 1, nibble);
    if literals == None { return OutputError(ip + 1); }
    var (litLen, from) := literals.value;
    if nibble == RUN_MASK {
      if op + litLen > dst.Length - 32 || from + litLen > |src| - 32 { return JumpToLiterals(litLen, from); }
    } else {
      if from > |src| - 17 { return JumpToLiterals(litLen, from); }
    }
    ghost var buf := dst[..];
    CopyLiteralsFast(src, dst, op, from, litLen, nibble);
    t := FastMatch(src, dst, ip, op, litLen, from, buf);
  }

  /** From the label `safe_literal_copy` on. */
  method FinishFromLiterals(src: seq<byte>, dst: array<byte>, ip: nat, op: nat, length: nat, from: nat) returns (r: int)
    requires ip < |src| && op <= dst.Length && !TakesShortcut(src, dst.Length, ip, op)
    requires LiteralLength(src, ip + 1, src[ip] / 16) == Some((length, from))
    modifies dst
    ensures r >= 0 <==> SafeDecodeFrom(src, dst.Length, ip, old(dst[..op])).Some?
    ensures r >= 0 ==> r <= dst.Length && SafeDecodeFrom(src, dst.Length, ip, old(dst[..op])) == Some(dst[..r])
  {
    hide LiteralLength, SafeStep, CopyMatch, TakesShortcut;
    var t := SafeLiteralCopy(src, dst, ip, op, length, from);
    match t
    case Failed(at) => r := -1 - at;
    case Finished(end) => r := end;
    case Continue(ip', op') => r := SafeLoop(src, dst, ip', op');
  }

  /** From the label `safe_match_copy` on. */
  method FinishFromMatch(src: seq<byte>, dst: array<byte>, ip: nat, op: nat, offset: nat, length: nat) returns (r: int)
    requires ip < |src| && offset <= op && op + MFLIMIT <= dst.Length && MINMATCH <= length
    modifies dst
    ensures r >= 0 <==> op + length + LASTLITERALS <= dst.Length
                        && SafeDecodeFrom(src, dst.Length, ip, Overlapped(old(dst[..]), op, offset, length)).Some?
    ensures r >= 0 ==> r <= dst.Length
                       && SafeDecodeFrom(src, dst.Length, ip,
                          Overlapped(old(dst[..]), op, offset, length)) == Some(dst[..r])
  {
    hide Overlapped, SafeStep, CopyMatch;
    var ok := CopyMatchWithin(dst, op, offset, length);
    if !ok { return -1 - ip; }
    r := SafeLoop(src, dst, ip, op + length);
  }

  /** The fast loop, and whatever it jumps to. */
  method FastLoop(src: seq<byte>, dst: array<byte>) returns (r: int)
    requires src != [] && FASTLOOP_SAFE_DISTANCE <= dst.Length
    modifies dst
    ensures r >= 0 <==> FastDecodeFrom(src, old(dst[..]), 0, 0).Some?
    ensures r >= 0 ==> r <= dst.Length && FastDecodeFrom(src, old(dst[..]), 0, 0) == Some(dst[..r])
  {
    hide FastParse, LiteralsLaid, AfterWhole, Overlapped, SafeDecodeFrom;
    var ip: nat, op: nat := 0, 0;
    while true
      invariant ip < |src| && op + FASTLOOP_SAFE_DISTANCE <= dst.Length
      invariant FastDecodeFrom(src, old(dst[..]), 0, 0) == FastDecodeFrom(src, dst[..], ip, op)
      decreases |src| - ip
    {
      SameDecision(src, dst.Length, ip, op);
      var t := FastSequence(src, dst, ip, op);
      match t
      case OutputError(at) => return -1 - at;
      case JumpToLiterals(length, from) =>
        r := FinishFromLiterals(src, dst, ip, op, length, from);
        return;
      case JumpToMatch(next, op', offset, length) =>
        r := FinishFromMatch(src, dst, next, op', offset, length);
        return;
      case GoOn(next, op') => ip, op := next, op';
    }
  }

  /** What LZ4_decompress_safe returns: `LZ4_FAST_DEC_LOOP` is set in x86 and x86_64 builds. */
  function Decompressed(src: seq<byte>, buf: seq<byte>, LZ4_FAST_DEC_LOOP: bool): Option<seq<byte>> {
    if LZ4_FAST_DEC_LOOP then FastDecode(src, buf) else SafeDecode(src, |buf|)
  }

  /** LZ4_decompress_safe: the number of bytes written, or a negative error code. */
  method LZ4_decompress_safe(src: seq<byte>, dst: array<byte>, LZ4_FAST_DEC_LOOP: bool) returns (r: int)
    modifies dst
    ensures r >= 0 <==> Decompressed(src, old(dst[..]), LZ4_FAST_DEC_LOOP).Some?
    ensures r >= 0 ==> r <= dst.Length && Decompressed(src, old(dst[..]), LZ4_FAST_DEC_LOOP) == Some(dst[..r])
  {
    hide FastDecodeFrom, SafeDecodeFrom;
    if dst.Length == 0 { return if |src| == 1 && src[0] == 0 then 0 else -1; }
    if |src| == 0 { return -1; }
    if LZ4_FAST_DEC_LOOP && dst.Length >= FASTLOOP_SAFE_DISTANCE {
      r := FastLoop(src, dst);
    } else {
      r := SafeLoop(src, dst, 0, 0);
    }
  }
}
