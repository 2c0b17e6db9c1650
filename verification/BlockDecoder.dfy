/**
 The main loop of LZ4_decompress_generic as LZ4_decompress_safe instantiates it: 16-byte literal
 and 18-byte match shortcuts, 8-byte wild copies and the overlap tables, proved equal to a
 byte-at-a-time definition on every input.
*/
module BlockDecoder {
  import opened Bytes
  import opened Numbers
  import opened BlockFormat
  import opened Memory

  const MATCH_SAFEGUARD_DISTANCE := 12

  // ---------------------------------------------------------------- what the code decides

  /** Result of read_variable_length: the 32-bit sum, where it stopped, and whether it
      stopped because the input ran too close to its end. */
  datatype VariableLength = VariableLength(length: nat, next: nat, loopError: bool)

  function ReadVariableLength(src: seq<byte>, i: nat, lencheck: nat, acc: nat): (v: VariableLength)
    requires i < |src| && lencheck <= |src|
    ensures i < v.next <= |src| && v.loopError == (v.next >= lencheck)
    decreases |src| - i
  {
    var sum := (acc + src[i]) % U32;
    if i + 1 >= lencheck then VariableLength(sum, i + 1, true)
    else if src[i] == 255 then ReadVariableLength(src, i + 1, lencheck, sum)
    else VariableLength(sum, i + 1, false)
  }

  /** The literal length and the index after it. Running into the last 15 bytes is an error
      only before the first extra byte. */
  function LiteralLength(src: seq<byte>, i: nat, nibble: nat): (r: Option<(nat, nat)>)
    requires i <= |src|
    ensures r.Some? ==> i <= r.value.1 <= |src|
  {
    if nibble != RUN_MASK then Some((nibble, i))
    else if i >= |src| - RUN_MASK then None
    else
      var v := ReadVariableLength(src, i, |src| - RUN_MASK, 0);
      Some((nibble + v.length, v.next))
  }

  /** The match length and the index after it; the extra bytes must end 5 bytes early. */
  function MatchLength(src: seq<byte>, i: nat, nibble: nat): (r: Option<(nat, nat)>)
    requires i < |src| && 4 <= |src|
    ensures r.Some? ==> i <= r.value.1 < |src| && r.value.0 >= MINMATCH
  {
    if nibble != ML_MASK then Some((nibble + MINMATCH, i))
    else
      var v := ReadVariableLength(src, i, |src| - LASTLITERALS + 1, 0);
      if v.loopError then None else Some((nibble + v.length + MINMATCH, v.next))
  }

  /** The match that follows the literals, as the code checks it. `wide` says that the
      literals went through the shortcut; `o` is the output position after them. */
  function SafeMatch(src: seq<byte>, cap: nat, ip: nat, o: nat, from: nat, litLen: nat, wide: bool): (r: Step)
    requires 8 <= |src| && ip < from && from + litLen + 2 < |src| && (wide ==> o + 18 <= cap)
    ensures r == Reject || (r.Match? && r.from == from && r.litLen == litLen)
    ensures r.Match? ==> from + litLen + 2 <= r.next < |src| && r.offset <= o && o + r.matchLength <= cap
  {
    var offset, i, nibble := Le16(src, from + litLen), from + litLen + 2, src[ip] % 16;
    if wide && nibble != ML_MASK && 8 <= offset <= o then
      Match(from, litLen, offset, nibble + MINMATCH, i)
    else if offset > o then Reject
    else
      match MatchLength(src, i, nibble)
      case None => Reject
      case Some((matchLength, next)) =>
        if o + matchLength > cap - LASTLITERALS then Reject
        else Match(from, litLen, offset, matchLength, next)
  }

  predicate TakesShortcut(src: seq<byte>, cap: nat, ip: nat, o: nat)
    requires ip < |src|
  {
    src[ip] / 16 != RUN_MASK && ip + 1 < |src| - 16 && o <= cap - 32
  }

  function SafeStep(src: seq<byte>, cap: nat, ip: nat, o: nat): (r: Step)
    requires ip < |src| && o <= cap
    ensures r.Final? ==> ip < r.from <= |src| && o + |src| - r.from <= cap
    ensures r.Match? ==> ip < r.from && r.from + r.litLen + 2 <= r.next < |src|
    ensures r.Match? ==> r.offset <= o + r.litLen && o + r.litLen + r.matchLength <= cap
  {
    if TakesShortcut(src, cap, ip, o) then
      SafeMatch(src, cap, ip, o + src[ip] / 16, ip + 1, src[ip] / 16, true)
    else
      match LiteralLength(src, ip + 1, src[ip] / 16)
      case None => Reject
      case Some((litLen, from)) =>
        if o + litLen > cap - MFLIMIT || from + litLen > |src| - (2 + 1 + LASTLITERALS) then
          if from + litLen != |src| || o + litLen > cap then Reject else Final(from)
        else
          SafeMatch(src, cap, ip, o + litLen, from, litLen, false)
  }

  /** `out` after the literals of `step`. */
  function WithLiterals(step: Step, src: seq<byte>, out: seq<byte>): seq<byte>
    requires step.Match? && step.from + step.litLen <= |src|
  {
    out + src[step.from..step.from + step.litLen]
  }

  /** What the main loop returns for the rest of the block, byte by byte. */
  function SafeDecodeFrom(src: seq<byte>, cap: nat, ip: nat, out: seq<byte>): (r: Option<seq<byte>>)
    requires ip < |src| && |out| <= cap
    ensures r.Some? ==> |r.value| <= cap
    decreases |src| - ip
  {
    var step := SafeStep(src, cap, ip, |out|);
    match step
    case Reject => None
    case Final(from) => Some(out + src[from..])
    case Match(_, _, offset, matchLength, next) =>
      SafeDecodeFrom(src, cap, next, CopyMatch(WithLiterals(step, src, out), offset, matchLength))
  }

  /** The result of LZ4_decompress_safe without the fast loop, for an output buffer of `cap` bytes. */
  function SafeDecode(src: seq<byte>, cap: nat): (r: Option<seq<byte>>)
    ensures r.Some? ==> |r.value| <= cap
  {
    if cap == 0 then if src == [0] then Some([]) else None
    else if src == [] then None
    else SafeDecodeFrom(src, cap, 0, [])
  }

  // ---------------------------------------------------------------- overlapping copies

  lemma {:induction false} SameAfterPeriods(s: seq<byte>, lo: nat, hi: nat, offset: nat, x: nat, m: nat)
    requires Repeats(s, lo, hi, offset) && 0 < offset
    requires lo <= x + offset && x + m * offset < hi
    ensures s[x + m * offset] == s[x]
  {
    if m > 0 {
      assert x + m * offset == (x + (m - 1) * offset) + offset;
      SameAfterPeriods(s, lo, hi, offset, x, m - 1);
    }
  }

  /** Copying at a multiple of the period continues the period. */
  lemma {:induction false} LongDistanceCopy(s: seq<byte>, lo: nat, w: nat, hi: nat, offset: nat, distance: nat, m: nat)
    requires lo + w <= hi <= |s| && Repeats(s, lo, lo + w, offset)
    requires if offset == 0 then distance <= w else distance == (m + 1) * offset <= offset + w
    requires 0 < distance <= lo + w
    requires forall k :: lo + w <= k < hi ==> s[k] == s[k - distance]
    ensures Repeats(s, lo, hi, offset)
  {
    if hi > lo + w {
      var k := hi - 1;
      LongDistanceCopy(s, lo, w, k, offset, distance, m);
      assert s[k] == s[k - distance];
      if offset > 0 {
        assert (m + 1) * offset == m * offset + offset;
        SameAfterPeriods(s, lo, k, offset, k - distance, m);
      }
    }
  }

  lemma RepeatsAfter(a: seq<byte>, b: seq<byte>, lo: nat, hi: nat, offset: nat)
    requires Repeats(a, lo, hi, offset) && hi <= |b| && a[..hi] == b[..hi]
    ensures Repeats(b, lo, hi, offset)
  {
    forall k | lo <= k < hi ensures b[k] == if offset == 0 then 0 else b[k - offset] {
      assert b[..hi][k] == a[..hi][k];
      if offset > 0 { assert b[..hi][k - offset] == a[..hi][k - offset]; }
    }
  }

  // ---------------------------------------------------------------- the decoder

  /** `s[op..hi]` is what the overlap copy leaves at `offset`. At offset 0 the code copies a place
      to itself: the four bytes that stand there stay, and are repeated. */
  predicate Overlaps(s: seq<byte>, op: nat, hi: nat, offset: nat) {
    if offset > 0 then Repeats(s, op, hi, offset) else Repeats(s, op + 4, hi, 4)
  }

  function Overlapped(buf: seq<byte>, op: nat, offset: nat, length: nat): (out: seq<byte>)
    requires offset <= op && op + 4 <= |buf| && MINMATCH <= length
    ensures |out| == op + length
  {
    if offset > 0 then CopyMatch(buf[..op], offset, length) else CopyMatch(buf[..op + 4], 4, length - 4)
  }

  lemma OverlapsIsOverlapped(before: seq<byte>, after: seq<byte>, op: nat, offset: nat, length: nat)
    requires offset <= op && op + 4 <= |before| && MINMATCH <= length && op + length <= |after|
    requires Overlaps(after, op, op + length, offset) && after[..op] == before[..op]
    requires offset == 0 ==> after[..op + 4] == before[..op + 4]
    ensures after[..op + length] == Overlapped(before, op, offset, length)
  {
    if offset > 0 {
      RepeatsIsCopyMatch(after, op, op + length, offset);
    } else {
      RepeatsIsCopyMatch(after, op + 4, op + length, 4);
    }
  }

  lemma {:induction false} ZerosGoOn(s: seq<byte>, lo: nat, k: nat)
    requires lo + 4 <= |s| && Repeats(s, lo + 4, |s|, 4) && lo <= k < |s|
    requires forall i :: lo <= i < lo + 4 ==> s[i] == 0
    ensures s[k] == 0
  {
    if k >= lo + 4 { ZerosGoOn(s, lo, k - 4); }
  }

  /** Over four zeros, the copy at offset 0 leaves zeros. */
  lemma ZerosOverlap(buf: seq<byte>, op: nat, length: nat)
    requires op + 4 <= |buf| && MINMATCH <= length && buf[op..op + 4] == [0, 0, 0, 0]
    ensures Overlapped(buf, op, 0, length) == CopyMatch(buf[..op], 0, length)
  {
    var out := Overlapped(buf, op, 0, length);
    CopyMatchBytes(buf[..op + 4], 4, length - 4);
    assert forall i :: op <= i < op + 4 ==> out[i] == buf[..op + 4][i] == buf[op..op + 4][i - op] == 0;
    forall k | op <= k < |out| ensures out[k] == 0 { ZerosGoOn(out, op, k); }
    RepeatsIsCopyMatch(out, op, |out|, 0);
    assert out[..|out|] == out && out[..op] == out[..op + 4][..op] == buf[..op];
  }

  /** Eight bytes laid down, then the rest copied from a whole number of periods back. */
  lemma RestOverlaps(first: seq<byte>, after: seq<byte>, op: nat, offset: nat, hi: nat, distance: nat, periods: nat)
    requires |first| == |after| && op + 8 <= |after| && hi <= |after|
    requires Overlaps(first, op, op + 8, offset)
    requires if offset == 0 then distance == 8 else distance == (periods + 1) * offset <= offset + 8
    requires 0 < distance <= op + 8
    requires forall k :: 0 <= k < op + 8 ==> after[k] == first[k]
    requires forall k :: op + 8 <= k < hi ==> after[k] == after[k - distance]
    ensures Overlaps(after, op, Max(hi, op + 8), offset)
  {
    assert after[..op + 8] == first[..op + 8];
    if offset > 0 {
      RepeatsAfter(first, after, op, op + 8, offset);
      if hi > op + 8 { LongDistanceCopy(after, op, 8, hi, offset, distance, periods); }
    } else {
      RepeatsAfter(first, after, op + 4, op + 8, 4);
      if hi > op + 8 { LongDistanceCopy(after, op + 4, 4, hi, 4, 8, 1); }
    }
  }

  lemma OverlapsLess(s: seq<byte>, op: nat, hi: nat, offset: nat, less: nat)
    requires Overlaps(s, op, hi, offset) && less <= hi
    ensures Overlaps(s, op, less, offset)
  {
  }

  const INC32_TABLE: seq<int> := [0, 1, 2, 1, 0, 4, 4, 4]
  const DEC64_TABLE: seq<int> := [0, 0, 0, -1, -4, 1, 2, 3]

  /** read_variable_length with its loop check on; the caller does the initial check. */
  method ReadVariableLengthLoop(src: seq<byte>, i0: nat, lencheck: nat) returns (length: nat, i: nat, loopError: bool)
    requires i0 < |src| && lencheck <= |src|
    ensures VariableLength(length, i, loopError) == ReadVariableLength(src, i0, lencheck, 0)
  {
    length, i, loopError := 0, i0, false;
    while true
      invariant i0 <= i < |src| && !loopError
      invariant ReadVariableLength(src, i, lencheck, length) == ReadVariableLength(src, i0, lencheck, 0)
      decreases |src| - i
    {
      var s := src[i];
      i := i + 1;
      length := (length + s) % U32;
      if i >= lencheck { loopError := true; break; }
      if s != 255 { break; }
    }
  }

  /** Through the tables, both overlap copies happen a whole number of periods back. */
  lemma OverlapTables(offset: nat)
    requires offset < 8
    ensures 0 <= INC32_TABLE[offset] <= offset
    ensures offset == 0 ==> INC32_TABLE[offset] == DEC64_TABLE[offset] == 0
    ensures offset > 0 ==> 4 + offset - INC32_TABLE[offset] == ([3, 1, 1, 1, 0, 0, 0][offset - 1] + 1) * offset
    ensures offset > 0 ==>
      8 + offset - INC32_TABLE[offset] + DEC64_TABLE[offset] == ([7, 3, 2, 1, 1, 1, 1][offset - 1] + 1) * offset
    ensures 8 <= 8 + offset - INC32_TABLE[offset] + DEC64_TABLE[offset] <= offset + 8
  {
  }

  /** The first four bytes, one after the other. */
  method CopyFour(dst: array<byte>, op: nat, offset: nat)
    requires offset <= op && op + 4 <= dst.Length
    modifies dst
    ensures forall k :: 0 <= k < op || op + 4 <= k < dst.Length ==> dst[k] == old(dst[k])
    ensures if offset > 0 then Repeats(dst[..], op, op + 4, offset) else dst[..] == old(dst[..])
  {
    var match_ := op - offset;
    dst[op] := dst[match_];
    dst[op + 1] := dst[match_ + 1];
    dst[op + 2] := dst[match_ + 2];
    dst[op + 3] := dst[match_ + 3];
  }

  /** The first 8 bytes of a match less than 8 bytes back, through the overlap tables: they
      leave the read position a whole number of periods, at least 8 bytes, behind the write one. */
  method CopyThroughTables(dst: array<byte>, op: nat, offset: nat) returns (match_: nat, ghost periods: nat)
    requires offset < 8 && offset <= op && op + 8 <= dst.Length
    modifies dst
    ensures forall k :: 0 <= k < op || op + 8 <= k < dst.Length ==> dst[k] == old(dst[k])
    ensures offset == 0 ==> forall k :: op <= k < op + 4 ==> dst[k] == old(dst[k])
    ensures Overlaps(dst[..], op, op + 8, offset)
    ensures match_ <= op
    ensures offset == 0 ==> match_ == op
    ensures offset > 0 ==> op + 8 - match_ == (periods + 1) * offset <= offset + 8
  {
    match_ := op - offset;
    OverlapTables(offset);
    CopyFour(dst, op, offset);
    ghost var first := dst[..];
    match_ := match_ + INC32_TABLE[offset];
    CopyWithin(dst, op + 4, match_, 4);
    NextFour(first, dst[..], op, offset, op + 4 - match_);
    match_ := match_ - DEC64_TABLE[offset];
    periods := if offset == 0 then 0 else [7, 3, 2, 1, 1, 1, 1][offset - 1];
  }

  lemma NextFour(first: seq<byte>, after: seq<byte>, op: nat, offset: nat, distance: nat)
    requires offset < 8 && offset <= op && |first| == |after| && op + 8 <= |after|
    requires offset > 0 ==> Repeats(first, op, op + 4, offset)
    requires distance == 4 + offset - INC32_TABLE[offset]
    requires forall k :: 0 <= k < op + 4 ==> after[k] == first[k]
    requires forall k :: op + 4 <= k < op + 8 ==> after[k] == after[k - distance]
    ensures Overlaps(after, op, op + 8, offset)
  {
    OverlapTables(offset);
    if offset > 0 {
      assert after[..op + 4] == first[..op + 4];
      RepeatsAfter(first, after, op, op + 4, offset);
      LongDistanceCopy(after, op, 4, op + 8, offset, distance, [3, 1, 1, 1, 0, 0, 0][offset - 1]);
    }
  }

  method CopyFirstEight(dst: array<byte>, op: nat, offset: nat) returns (match_: nat, ghost periods: nat)
    requires offset <= op && op + 8 <= dst.Length
    modifies dst
    ensures forall k :: 0 <= k < op || op + 8 <= k < dst.Length ==> dst[k] == old(dst[k])
    ensures offset == 0 ==> forall k :: op <= k < op + 4 ==> dst[k] == old(dst[k])
    ensures Overlaps(dst[..], op, op + 8, offset)
    ensures match_ <= op
    ensures offset == 0 ==> match_ == op
    ensures offset > 0 ==> op + 8 - match_ == (periods + 1) * offset <= offset + 8
  {
    if offset < 8 {
      match_, periods := CopyThroughTables(dst, op, offset);
    } else {
      match_ := op - offset;
      CopyWithin(dst, op, match_, 8);
      match_, periods := match_ + 8, 0;
    }
  }

  method ReadLiteralLength(src: seq<byte>, i: nat, nibble: nat) returns (r: Option<(nat, nat)>)
    requires i <= |src|
    ensures r == LiteralLength(src, i, nibble)
  {
    if nibble != RUN_MASK { return Some((nibble, i)); }
    if i >= |src| - RUN_MASK { return None; }
    var extra, next, _ := ReadVariableLengthLoop(src, i, |src| - RUN_MASK);
    return Some((nibble + extra, next));
  }

  method ReadMatchLength(src: seq<byte>, i: nat, nibble: nat) returns (r: Option<(nat, nat)>)
    requires i < |src| && 4 <= |src|
    ensures r == MatchLength(src, i, nibble)
  {
    if nibble != ML_MASK { return Some((nibble + MINMATCH, i)); }
    var extra, next, loopError := ReadVariableLengthLoop(src, i, |src| - LASTLITERALS + 1);
    if loopError { return None; }
    return Some((nibble + extra + MINMATCH, next));
  }

  /** The rest of a match that ends at `cpy`: 8 bytes at a time, then, close to the end of the
      buffer, one at a time. */
  method CopyRest(dst: array<byte>, op0: nat, match0: nat, cpy: nat)
    requires match0 + 8 <= op0 && op0 + 4 <= dst.Length && op0 - 4 <= cpy <= dst.Length - LASTLITERALS
    modifies dst
    ensures forall k :: 0 <= k < op0 ==> dst[k] == old(dst[k])
    ensures forall k :: op0 <= k < cpy ==> dst[k] == dst[k - (op0 - match0)]
  {
    var op, match_ := op0, match0;
    if cpy > dst.Length - MATCH_SAFEGUARD_DISTANCE {
      var oCopyLimit := dst.Length - 7;
      if op < oCopyLimit {
        WildCopy8Within(dst, op, match_, oCopyLimit);
        match_ := match_ + (oCopyLimit - op);
        op := oCopyLimit;
      }
      while op < cpy
        invariant op0 <= op <= dst.Length && op - match_ == op0 - match0
        invariant forall k :: 0 <= k < op0 ==> dst[k] == old(dst[k])
        invariant forall k :: op0 <= k < op ==> dst[k] == dst[k - (op0 - match0)]
      {
        dst[op] := dst[match_];
        op, match_ := op + 1, match_ + 1;
      }
    } else {
      CopyWithin(dst, op, match_, 8);
      if cpy > op + 8 {
        WildCopy8Within(dst, op + 8, match_ + 8, cpy);
      }
    }
  }

  /** The tail of `_copy_match`: an overlapping copy of `length` bytes in steps of 8, free to
      scribble between the end of the match and the end of the buffer. */
  method CopyMatchWithin(dst: array<byte>, op: nat, offset: nat, length: nat) returns (ok: bool)
    requires offset <= op && op + MFLIMIT <= dst.Length && MINMATCH <= length
    modifies dst
    ensures ok == (op + length <= dst.Length - LASTLITERALS)
    ensures ok ==> dst[..op + length] == Overlapped(old(dst[..]), op, offset, length)
  {
    hide Overlaps, Overlapped;
    var cpy := op + length;
    ghost var before := dst[..];
    var match_, periods := CopyFirstEight(dst, op, offset);
    if cpy > dst.Length - LASTLITERALS { return false; }
    ghost var first := dst[..];
    CopyRest(dst, op + 8, match_, cpy);
    ghost var after := dst[..];
    RestOverlaps(first, after, op, offset, cpy, op + 8 - match_, periods);
    OverlapsLess(after, op, Max(cpy, op + 8), offset, cpy);
    assert after[..op] == before[..op] && (offset == 0 ==> after[..op + 4] == before[..op + 4]);
    OverlapsIsOverlapped(before, after, op, offset, length);
    assert dst[..cpy] == after[..cpy];
    return true;
  }

  /** How one turn of the decoding loop ends. */
  datatype Turn = Failed(at: nat) | Finished(op: nat) | Continue(ip: nat, op: nat)

  /** The turn did what `step` says to the output `out`. */
  predicate TurnOf(t: Turn, step: Step, src: seq<byte>, out: seq<byte>, dst: array<byte>)
    requires step.Final? ==> step.from <= |src|
    requires step.Match? ==> step.from + step.litLen <= |src| && step.offset <= |out| + step.litLen
    reads dst
  {
    match step
    case Reject => t.Failed?
    case Final(from) => t.Finished? && t.op <= dst.Length && dst[..t.op] == out + src[from..]
    case Match(_, _, offset, matchLength, next) =>
      && t.Continue? && t.ip == next && t.op <= dst.Length
      && dst[..t.op] == CopyMatch(WithLiterals(step, src, out), offset, matchLength)
  }

  /** The label `_copy_match`: the literals are in place, `ip` is past the offset. */
  method CopyMatchStep(src: seq<byte>, dst: array<byte>, ip: nat, op: nat, offset: nat, nibble: nat,
                       ghost ip0: nat, ghost from: nat, ghost litLen: nat, ghost wide: bool)
    returns (t: Turn)
    requires 8 <= |src| && ip0 < from && from + litLen + 2 == ip < |src|
    requires offset == Le16(src, ip - 2) && nibble == src[ip0] % 16
    requires litLen <= op && op + MFLIMIT <= dst.Length && (wide ==> op + 18 <= dst.Length)
    requires !(wide && nibble != ML_MASK && 8 <= offset <= op)
    modifies dst
    ensures var step := SafeMatch(src, dst.Length, ip0, op, from, litLen, wide);
      if step == Reject then t.Failed?
      else t == Continue(step.next, op + step.matchLength)
           && dst[..t.op] == CopyMatch(old(dst[..op]), offset, step.matchLength)
  {
    if offset > op { return Failed(ip); }
    ghost var out := dst[..op];
    forall k | 0 <= k < 4 { dst[op + k] := 0; }
    assert dst[..op] == out && dst[op..op + 4] == [0, 0, 0, 0];
    ghost var zeroed := dst[..];
    var r := ReadMatchLength(src, ip, nibble);
    if r == None { return Failed(ip); }
    var (length, next) := r.value;
    var ok := CopyMatchWithin(dst, op, offset, length);
    if !ok { return Failed(next); }
    if offset == 0 { ZerosOverlap(zeroed, op, length); }
    return Continue(next, op + length);
  }

  /** The shortcut's match copy: 8, 8 and 2 bytes, at a distance of at least 8. */
  method CopyEighteen(dst: array<byte>, op: nat, offset: nat, length: nat)
    requires 8 <= offset <= op && op + 18 <= dst.Length && length <= 18
    modifies dst
    ensures dst[..op + length] == CopyMatch(old(dst[..op]), offset, length)
  {
    hide CopyMatch;
    ghost var before := dst[..op];
    var match_ := op - offset;
    CopyWithin(dst, op, match_, 8);
    CopyWithin(dst, op + 8, match_ + 8, 8);
    CopyWithin(dst, op + 16, match_ + 16, 2);
    assert dst[..][..op] == before;
    RepeatsIsCopyMatch(dst[..], op, op + length, offset);
    assert dst[..op + length] == dst[..][..op + length];
  }

  /** The two-stage shortcut: 16 bytes for at most 14 literals, 18 for a match that does not
      overlap closely; otherwise the decoded offset goes to `_copy_match`. */
  method Shortcut(src: seq<byte>, dst: array<byte>, ip0: nat, op0: nat) returns (t: Turn)
    requires ip0 < |src| && op0 <= dst.Length && TakesShortcut(src, dst.Length, ip0, op0)
    modifies dst
    ensures TurnOf(t, SafeStep(src, dst.Length, ip0, op0), src, old(dst[..op0]), dst)
  {
    hide CopyMatch, MatchLength;
    ghost var out := dst[..op0];
    var token, ip, op := src[ip0], ip0 + 1, op0;
    var litLen: nat := token / 16;
    CopyFrom(dst, op, src, ip, 16);
    op, ip := op + litLen, ip + litLen;
    var length: nat := token % 16;
    var offset := Le16(src, ip);
    ip := ip + 2;
    ghost var step := SafeMatch(src, dst.Length, ip0, op, ip0 + 1, litLen, true);
    assert dst[..op] == out + src[ip0 + 1..ip0 + 1 + litLen];
    assert step.Match? ==> WithLiterals(step, src, out) == dst[..op];
    if length != ML_MASK && offset >= 8 && op - offset >= 0 {
      CopyEighteen(dst, op, offset, length + MINMATCH);
      t := Continue(ip, op + length + MINMATCH);
    } else {
      t := CopyMatchStep(src, dst, ip, op, offset, length, ip0, ip0 + 1, litLen, true);
    }
    assert TurnOf(t, step, src, out, dst);
  }

  /** The label `safe_literal_copy`: the literals when the shortcut does not apply, then the match. */
  method SafeLiteralCopy(src: seq<byte>, dst: array<byte>, ip0: nat, op: nat, length: nat, ip: nat) returns (t: Turn)
    requires ip0 < |src| && op <= dst.Length && !TakesShortcut(src, dst.Length, ip0, op)
    requires LiteralLength(src, ip0 + 1, src[ip0] / 16) == Some((length, ip))
    modifies dst
    ensures TurnOf(t, SafeStep(src, dst.Length, ip0, op), src, old(dst[..op]), dst)
  {
    hide CopyMatch, LiteralLength;
    ghost var out := dst[..op];
    var cpy := op + length;
    if cpy > dst.Length - MFLIMIT || ip + length > |src| - (2 + 1 + LASTLITERALS) {
      if ip + length != |src| || cpy > dst.Length { return Failed(ip); }
      CopyFrom(dst, op, src, ip, length);
      assert dst[..cpy] == out + src[ip..];
      return Finished(cpy);
    }
    WildCopy8From(dst, op, src, ip, cpy);
    ghost var step := SafeMatch(src, dst.Length, ip0, cpy, ip, length, false);
    assert dst[..cpy] == out + src[ip..ip + length];
    assert step.Match? ==> WithLiterals(step, src, out) == dst[..cpy];
    t := CopyMatchStep(src, dst, ip + length + 2, cpy, Le16(src, ip + length), src[ip0] % 16, ip0, ip, length, false);
    assert TurnOf(t, step, src, out, dst);
  }

  /** A turn without the shortcut. */
  method FullSequence(src: seq<byte>, dst: array<byte>, ip0: nat, op: nat) returns (t: Turn)
    requires ip0 < |src| && op <= dst.Length && !TakesShortcut(src, dst.Length, ip0, op)
    modifies dst
    ensures TurnOf(t, SafeStep(src, dst.Length, ip0, op), src, old(dst[..op]), dst)
  {
    hide CopyMatch, LiteralLength;
    var r := ReadLiteralLength(src, ip0 + 1, src[ip0] / 16);
    if r == None { return Failed(ip0 + 1); }
    t := SafeLiteralCopy(src, dst, ip0, op, r.value.0, r.value.1);
  }

  /** The main loop of LZ4_decompress_generic, from the token at `ip0` on. */
  method SafeLoop(src: seq<byte>, dst: array<byte>, ip0: nat, op0: nat) returns (r: int)
    requires ip0 < |src| && op0 <= dst.Length
    modifies dst
    ensures r >= 0 <==> SafeDecodeFrom(src, dst.Length, ip0, old(dst[..op0])).Some?
    ensures r >= 0 ==> r <= dst.Length && SafeDecodeFrom(src, dst.Length, ip0, old(dst[..op0])) == Some(dst[..r])
  {
    var ip: nat, op: nat := ip0, op0;
    while true
      invariant ip < |src| && op <= dst.Length
      invariant SafeDecodeFrom(src, dst.Length, ip0, old(dst[..op0])) == SafeDecodeFrom(src, dst.Length, ip, dst[..op])
      decreases |src| - ip
    {
      ghost var step := SafeStep(src, dst.Length, ip, op);
      var t: Turn;
      if TakesShortcut(src, dst.Length, ip, op) {
        t := Shortcut(src, dst, ip, op);
      } else {
        t := FullSequence(src, dst, ip, op);
      }
      match t
      case Failed(at) => return -1 - at;
      case Finished(end) => return end;
      case Continue(ip', op') => ip, op := ip', op';
    }
  }
}
