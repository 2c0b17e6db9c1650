/**
 LZ4HC_compress_hashChain: the parser that keeps up to three overlapping matches (and the one
 it may have to go back to) before it commits to any of them.
*/
module HcLazyParser {
  import opened Bytes
  import opened BlockFormat
  import opened BlockParse
  import opened MatchCount
  import opened Hashing
  import opened HcMatchFinder
  import opened HcSearch
  import opened HcEncoder

  /** `len` bytes at `start` that repeat the bytes at `ref`: (ip, ref, ml), (start2, ref2, ml2), … */
  datatype Found = Found(start: nat, ref: nat, len: nat) {
    function End(): nat { start + len }
  }

  predicate Real(src: seq<byte>, m: Found) {
    RealMatch(src, m.start, m.ref, m.len)
  }

  /** Where the code stands between two searches: the head of the main loop, or one of the two
      labels with the matches in play. `m0` is the match that Search2 may restore. */
  datatype Label =
    | Search1(ip: nat)
    | Search2(m0: Found, m1: Found)
    | Search3(m1: Found, m2: Found)

  /** The position the next search will start from. */
  function Position(here: Label): int {
    match here
    case Search1(ip) => ip
    case Search2(_, m1) => m1.End() - 2
    case Search3(_, m2) => m2.End() - 3
  }

  /** What holds at each label, when `searched` is the last position searched from.
      - Nothing reaches back behind the anchor, and every right edge is ahead of `searched`.
      - Search2: the restorable match starts no more than twice as far back as it is shorter.
      - Search3: a second match that leaves a gap after the first is correspondingly longer, and
        the two can be squeezed together without making either shorter than 4. */
  predicate LabelInv(src: seq<byte>, searched: nat, anchor: nat, here: Label) {
    match here
    case Search1(ip) => anchor <= ip && searched <= ip
    case Search2(m0, m1) =>
      && Real(src, m0) && Real(src, m1) && anchor <= m0.start <= m1.start
      && m1.start - m0.start <= 2 * (m1.len - m0.len)
      && (m0.start < m1.start ==> m0.End() + MFLIMIT <= |src|)
      && searched + MINMATCH <= m1.End()
    case Search3(m1, m2) =>
      && Real(src, m1) && Real(src, m2) && anchor <= m1.start <= m2.start
      && m1.End() + MFLIMIT <= |src|
      && (m2.start - m1.start >= MINMATCH || m2.start - m1.start + m2.len >= 2 * MINMATCH)
      && (m2.start < m1.End() || m2.start - m1.End() + 3 <= 2 * (m2.len - m1.len))
      && searched + MINMATCH <= m2.End()
  }

  /** One step of the parser: matches to encode, in order, and where to go on. */
  datatype Step = Step(emit: seq<Found>, next: Label)

  function LastEnd(anchor: nat, emit: seq<Found>): nat {
    if emit == [] then anchor else emit[|emit| - 1].End()
  }

  /** Real matches, each starting no earlier than the one before it ends. */
  predicate Ordered(src: seq<byte>, anchor: nat, emit: seq<Found>) {
    forall i :: 0 <= i < |emit| ==> Real(src, emit[i]) && LastEnd(anchor, emit[..i]) <= emit[i].start
  }

  predicate StepInv(src: seq<byte>, searched: nat, anchor: nat, here: Label, step: Step) {
    && Ordered(src, anchor, step.emit) && LabelInv(src, searched, LastEnd(anchor, step.emit), step.next)
    && Position(here) < Position(step.next) <= |src|
    && (step.next.Search1? ==> step.next.ip == LastEnd(step.next.ip, step.emit))
  }

  // ---------------------------------------------------------------- shortening matches

  lemma TrimIsReal(src: seq<byte>, m: Found, len: nat)
    requires Real(src, m) && MINMATCH <= len <= m.len
    ensures Real(src, m.(len := len))
  {
  }

  function Shift(m: Found, c: nat): Found
    requires c <= m.len
  {
    Found(m.start + c, m.ref + c, m.len - c)
  }

  lemma ShiftIsReal(src: seq<byte>, m: Found, c: nat)
    requires Real(src, m) && c + MINMATCH <= m.len && m.start + c + MFLIMIT <= |src|
    ensures Real(src, Shift(m, c))
  {
  }

  /** How long the first of two close matches should be: at most 18, and leaving the second at
      least 4. */
  function NewMl(m1: Found, m2: Found): int {
    var ml := Min(m1.len, OPTIMAL_ML);
    if m1.start + ml > m2.End() - MINMATCH then m2.End() - MINMATCH - m1.start else ml
  }

  /** The second match, moved behind that. */
  function Squeeze(m1: Found, m2: Found): Found
    requires m1.start <= m2.start && m2.len >= MINMATCH
  {
    if m2.start - m1.start < OPTIMAL_ML && NewMl(m1, m2) > m2.start - m1.start
    then Shift(m2, NewMl(m1, m2) - (m2.start - m1.start)) else m2
  }

  lemma SqueezeIsReal(src: seq<byte>, m1: Found, m2: Found)
    requires Real(src, m1) && Real(src, m2) && m1.start <= m2.start && m1.End() + MFLIMIT <= |src|
    requires m2.start - m1.start >= MINMATCH || m2.start - m1.start + m2.len >= 2 * MINMATCH
    ensures var s := Squeeze(m1, m2);
      && Real(src, s) && s.End() == m2.End() && m1.start + MINMATCH <= s.start && s.len <= m2.len
      && (m2.start < s.start ==> s.start <= m1.End())
  {
    if Squeeze(m1, m2) != m2 {
      ShiftIsReal(src, m2, NewMl(m1, m2) - (m2.start - m1.start));
    }
  }

  // ---------------------------------------------------------------- the decisions

  /** A match found from position `ip`, looking back no further than `low`. */
  predicate FoundFrom(src: seq<byte>, ip: nat, low: nat, longest: nat, m: Found) {
    && Real(src, m) && low <= m.start <= ip && ip + MINMATCH <= m.End() && m.len > longest
  }

  lemma WiderIsFound(src: seq<byte>, ip: nat, low: nat, longest: nat, b: Best)
    requires LASTLITERALS <= |src| && ip + MFLIMIT <= |src| && longest >= MINMATCH - 1
    requires b.length > longest && WiderMatch(src, ip, low, |src| - LASTLITERALS, b.startpos, b.matchpos, b.length)
    ensures FoundFrom(src, ip, low, longest, Found(b.startpos, b.matchpos, b.length))
  {
  }

  /** A longer second match: go back to the skipped one if it still fits before it, and drop
      the first one if less than 3 bytes of it would remain. */
  method AfterSearch2(src: seq<byte>, ghost searched: nat, ghost anchor: nat, m0: Found, m1: Found, m2: Found)
    returns (step: Step)
    requires LabelInv(src, searched, anchor, Search2(m0, m1)) && m1.End() + MFLIMIT <= |src|
    requires FoundFrom(src, m1.End() - 2, m1.start, m1.len, m2)
    ensures StepInv(src, m1.End() - 2, anchor, Search2(m0, m1), step)
  {
    hide RealMatch;
    RealEnds(src, m2);
    var first := if m0.start < m1.start && m2.start < m1.start + m0.len then m0 else m1;
    RealEnds(src, first);
    if m2.start - first.start < 3 {
      step := Step([], Search2(m0, m2));
    } else {
      step := Step([], Search3(first, m2));
    }
  }

  lemma RealEnds(src: seq<byte>, m: Found)
    requires Real(src, m)
    ensures m.len >= MINMATCH && m.start + MFLIMIT <= |src| && m.End() + LASTLITERALS <= |src|
  {
  }

  /** No better third match: encode both. */
  method TakeBoth(src: seq<byte>, ghost searched: nat, ghost anchor: nat, m1: Found, m2: Found, ghost here: Label)
    returns (step: Step)
    requires Real(src, m1) && Real(src, m2) && anchor <= m1.start && m1.start + MINMATCH <= m2.start
    requires searched <= m2.End() && Position(here) < m2.End()
    ensures StepInv(src, searched, anchor, here, step)
  {
    var ml := if m2.start < m1.End() then m2.start - m1.start else m1.len;
    TrimIsReal(src, m1, ml);
    step := Step([m1.(len := ml), m2], Search1(m2.End()));
  }

  /** A third match too close to the first to leave room for the second. */
  method DropSecond(src: seq<byte>, ghost anchor: nat, m1: Found, m2: Found, m3: Found, ghost here: Label)
    returns (step: Step)
    requires Real(src, m1) && Real(src, m2) && anchor <= m1.start && m1.start + MINMATCH <= m2.start
    requires m1.End() + MFLIMIT <= |src| && m2.End() + MFLIMIT <= |src|
    requires FoundFrom(src, m2.End() - 3, m2.start, m2.len, m3) && m3.start < m1.End() + 3
    requires Position(here) <= m2.End() - 3
    ensures StepInv(src, m2.End() - 3, anchor, here, step)
  {
    hide RealMatch;
    RealEnds(src, m1);
    RealEnds(src, m2);
    RealEnds(src, m3);
    if m3.start < m1.End() { return Step([], Search3(m1, m3)); }
    var m0 := m2;
    if m2.start < m1.End() {
      var correction := m1.End() - m2.start;
      if m2.len - correction < MINMATCH {
        m0 := m3;
      } else {
        ShiftIsReal(src, m2, correction);
        m0 := Shift(m2, correction);
      }
    }
    step := Step([m1], Search2(m0, m3));
  }

  /** Three matches in ascending order: encode the first, shortened so that at least 4 bytes of
      the second remain. */
  method TakeFirst(src: seq<byte>, ghost anchor: nat, m1: Found, m2: Found, m3: Found, ghost here: Label)
    returns (step: Step)
    requires Real(src, m1) && Real(src, m2) && anchor <= m1.start && m1.start + MINMATCH <= m2.start
    requires m1.End() + MFLIMIT <= |src| && m2.End() + MFLIMIT <= |src|
    requires m2.start <= m1.End() || m2.start - m1.End() + 3 <= 2 * (m2.len - m1.len)
    requires FoundFrom(src, m2.End() - 3, m2.start, m2.len, m3) && m1.End() + 3 <= m3.start
    requires Position(here) <= m2.End() - 3
    ensures StepInv(src, m2.End() - 3, anchor, here, step)
  {
    hide RealMatch;
    RealEnds(src, m1);
    RealEnds(src, m2);
    RealEnds(src, m3);
    var first, second := m1, m2;
    if m2.start < m1.End() {
      if m2.start - m1.start < OPTIMAL_ML {
        var ml := NewMl(m1, m2);
        TrimIsReal(src, m1, ml);
        first := m1.(len := ml);
        SqueezeIsReal(src, m1, m2);
        second := Squeeze(m1, m2);
      } else {
        TrimIsReal(src, m1, m2.start - m1.start);
        first := m1.(len := m2.start - m1.start);
      }
    }
    step := Step([first], Search3(second, m3));
  }

  // ---------------------------------------------------------------- the parser

  /** The search from `ip`, back to `low`; a match longer than `longest`, if there is one. */
  method Search(index: Index, src: seq<byte>, ip: nat, low: nat, longest: nat, maxNbAttempts: nat)
    returns (r: Option<Found>)
    requires index.Valid(src) && index.nextToUpdate <= index.start + ip
    requires low <= ip && ip + MFLIMIT <= |src| && MINMATCH - 1 <= longest && ip - low < longest
             && low + longest + LASTLITERALS <= |src|
    modifies index`nextToUpdate, index.hashTable, index.chainTable
    ensures index.Valid(src) && index.nextToUpdate == index.start + ip
    ensures r.Some? ==> FoundFrom(src, ip, low, longest, r.value)
  {
    hide WiderMatch, RealMatch;
    var b :=
        InsertAndGetWiderMatch(index, src, ip, low, |src| - LASTLITERALS, longest, maxNbAttempts, maxNbAttempts > 128,
            false, false);
    if b.length == longest { return None; }
    WiderIsFound(src, ip, low, longest, b);
    return Some(Found(b.startpos, b.matchpos, b.length));
  }

  /** Search2: a longer match overlapping the end of the first. */
  method Search2Step(index: Index, src: seq<byte>, ghost anchor: nat, m0: Found, m1: Found, maxNbAttempts: nat)
    returns (step: Step)
    requires index.Valid(src)
    requires LabelInv(src, index.nextToUpdate - index.start, anchor, Search2(m0, m1))
    modifies index`nextToUpdate, index.hashTable, index.chainTable
    ensures index.Valid(src)
    ensures StepInv(src, index.nextToUpdate - index.start, anchor, Search2(m0, m1), step)
  {
    hide RealMatch;
    RealEnds(src, m1);
    ghost var searched := index.nextToUpdate - index.start;
    if m1.End() <= |src| - MFLIMIT {
      var m2 := Search(index, src, m1.End() - 2, m1.start, m1.len, maxNbAttempts);
      if m2.Some? {
        step := AfterSearch2(src, searched, anchor, m0, m1, m2.value);
        return;
      }
    }
    step := Step([m1], Search1(m1.End()));
  }

  /** Search3: a longer match overlapping the end of the second. */
  method Search3Step(index: Index, src: seq<byte>, ghost anchor: nat, m1: Found, m2: Found, maxNbAttempts: nat)
    returns (step: Step)
    requires index.Valid(src)
    requires LabelInv(src, index.nextToUpdate - index.start, anchor, Search3(m1, m2))
    modifies index`nextToUpdate, index.hashTable, index.chainTable
    ensures index.Valid(src)
    ensures StepInv(src, index.nextToUpdate - index.start, anchor, Search3(m1, m2), step)
  {
    hide RealMatch, StepInv;
    RealEnds(src, m1);
    RealEnds(src, m2);
    SqueezeIsReal(src, m1, m2);
    var second := Squeeze(m1, m2);
    RealEnds(src, second);
    if second.End() <= |src| - MFLIMIT {
      var m3 := Search(index, src, second.End() - 3, second.start, second.len, maxNbAttempts);
      if m3.Some? {
        if m3.value.start < m1.End() + 3 {
          step := DropSecond(src, anchor, m1, second, m3.value, Search3(m1, m2));
        } else {
          step := TakeFirst(src, anchor, m1, second, m3.value, Search3(m1, m2));
        }
        return;
      }
    }
    step := TakeBoth(src, index.nextToUpdate - index.start, anchor, m1, second, Search3(m1, m2));
  }

  /** From one search to the next. */
  method NextStep(index: Index, src: seq<byte>, ghost anchor: nat, here: Label, maxNbAttempts: nat) returns (step: Step)
    requires index.Valid(src)
    requires LabelInv(src, index.nextToUpdate - index.start, anchor, here)
    requires here.Search1? ==> here.ip + MFLIMIT <= |src|
    modifies index`nextToUpdate, index.hashTable, index.chainTable
    ensures index.Valid(src)
    ensures StepInv(src, index.nextToUpdate - index.start, anchor, here, step)
  {
    hide RealMatch;
    match here
    case Search1(ip) =>
      var m := Search(index, src, ip, ip, MINMATCH - 1, maxNbAttempts);
      if m == None { return Step([], Search1(ip + 1)); }
      step := Step([], Search2(m.value, m.value));
      RealEnds(src, m.value);
    case Search2(m0, m1) =>
      step := Search2Step(index, src, anchor, m0, m1, maxNbAttempts);
    case Search3(m1, m2) =>
      step := Search3Step(index, src, anchor, m1, m2, maxNbAttempts);
  }

  /** Encodes the matches of one step, in order. */
  method EmitAll(dst: array<byte>, op0: nat, src: seq<byte>, anchor0: nat, emit: seq<Found>, limit: Limit,
      ghost ss0: seq<Sequence>)
    returns (ok: bool, op: nat, anchor: nat, ghost ss: seq<Sequence>)
    requires HcRoom(|src|, dst.Length, limit) && HcBuilding(ss0, src, anchor0, dst, op0, limit)
             && Ordered(src, anchor0, emit)
    modifies dst
    ensures limit == notLimited ==> ok
    ensures HcBuilding(ss, src, anchor, dst, op, limit)
    ensures ok ==> anchor == LastEnd(anchor0, emit)
  {
    hide RealMatch, HcBuilding, Building;
    op, anchor, ss := op0, anchor0, ss0;
    var i := 0;
    while i < |emit|
      invariant 0 <= i <= |emit| && anchor == LastEnd(anchor0, emit[..i])
      invariant HcBuilding(ss, src, anchor, dst, op, limit)
    {
      var m := emit[i];
      var op': nat;
      ghost var ss': seq<Sequence>;
      ok, op', ss' := Emit(dst, op, src, anchor, m.start, m.len, m.ref, limit, ss);
      if !ok { return; }
      assert emit[..i + 1][i] == m;
      op, anchor, ss, i := op', m.End(), ss', i + 1;
    }
    ok := true;
    assert emit[..|emit|] == emit;
  }

  /** LZ4HC_compress_hashChain, with a fresh index. The loop ends because
      every step moves the position of the next search forward. */
  method CompressHashChain(index: Index, src: seq<byte>, dst: array<byte>, maxNbAttempts: nat, limit: Limit)
    returns (r: nat, consumed: nat)
    requires index.Fresh()
    requires dst != index.hashTable as object && dst != index.chainTable as object
    requires HcRoom(|src|, dst.Length, limit) && (limit == fillOutput ==> dst.Length >= 1)
    modifies index`nextToUpdate, index.hashTable, index.chainTable, dst
    ensures index.Valid(src)
    ensures consumed <= |src| && (limit != fillOutput && r > 0 ==> consumed == |src|)
    ensures r == 0 ==> limit == limitedOutput
    ensures r > 0 ==> r <= dst.Length && r <= |src| + |src| / 255 + 16 && DecodesTo(dst[..r], src[..consumed])
  {
    hide RealMatch, Spells, EncodeAll, DecodesTo;
    var anchor: nat, op: nat, ok := 0, 0, true;
    ghost var ss: seq<Sequence> := [];
    StartBuilding(src, dst, limit);
    if |src| >= MFLIMIT + 1 {
      var here := Search1(0);
      while !(here.Search1? && here.ip + MFLIMIT > |src|)
        invariant index.Valid(src) && HcBuilding(ss, src, anchor, dst, op, limit)
        invariant LabelInv(src, index.nextToUpdate - index.start, anchor, here) && Position(here) <= |src|
        decreases |src| - Position(here)
      {
        var step := NextStep(index, src, anchor, here, maxNbAttempts);
        ok, op, anchor, ss := EmitAll(dst, op, src, anchor, step.emit, limit, ss);
        if !ok { break; }
        here := step.next;
      }
    }
    if !ok && limit != fillOutput { return 0, 0; }
    r, consumed := EncodeLastLiterals(dst, src, anchor, op, limit, ss);
  }
}
