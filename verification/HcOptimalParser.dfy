/**
 LZ4HC_compress_optimal: a table of cheapest ways to reach each position, turned around in
 place into the path from the start, and encoded.
*/
module HcOptimalParser {
  import opened Bytes
  import opened BlockFormat
  import opened BlockParse
  import opened MatchCount
  import opened Hashing
  import opened HcMatchFinder
  import opened HcSearch
  import opened HcEncoder

  const LZ4_OPT_NUM := 4096
  const TRAILING_LITERALS := 3

  // ---------------------------------------------------------------- prices

  function LiteralsPrice(litlen: nat): nat {
    if litlen >= RUN_MASK then litlen + 1 + (litlen - RUN_MASK) / 255 else litlen
  }

  function SequencePrice(litlen: nat, mlen: nat): nat
    requires mlen >= MINMATCH
  {
    3 + LiteralsPrice(litlen)
    + if mlen >= ML_MASK + MINMATCH then 1 + (mlen - (ML_MASK + MINMATCH)) / 255 else 0
  }

  /** Prices are the exact number of bytes a sequence takes in the block. */
  lemma PriceIsSize(s: Sequence)
    requires Encodable(s)
    ensures SequencePrice(|s.literals|, s.matchLength) == |EncodeSequence(s)|
    ensures LiteralsPrice(|s.literals|) == |LengthBytes(|s.literals|) + s.literals|
  {
  }

  /** The price the table gives to a way of price `price` with `n` more literals. */
  function LiteralsAfter(price: int, litlen: nat, n: nat): int {
    price - LiteralsPrice(litlen) + LiteralsPrice(litlen + n)
  }

  /** What the table says a few literals behind a match cost, by adding them to the run of literals
      before it: their exact size, unless that run would need another length byte. */
  lemma LiteralsBehindMatch(s: Sequence, n: nat)
    requires Encodable(s) && 1 <= n < MINMATCH
    ensures LiteralsAfter(SequencePrice(|s.literals|, s.matchLength), |s.literals|, n)
            == |EncodeSequence(s)| + LiteralsPrice(n)
            <==> |LengthBytes(|s.literals| + n)| == |LengthBytes(|s.literals|)|
  {
    PriceIsSize(s);
  }

  // ---------------------------------------------------------------- the table

  /** LZ4HC_optimal_t: the last step of the cheapest known way here, a literal (mlen 1) or a match. */
  datatype Opt = Opt(price: int, off: nat, mlen: nat, litlen: nat)

  /** A step of a path: `mlen` 1 is a literal, anything else a real match at `from`. */
  predicate ValidStep(src: seq<byte>, ip: nat, from: nat, mlen: nat, off: nat) {
    mlen == 1 || (off <= ip + from && RealMatch(src, ip + from, ip + from - off, mlen))
  }

  /** The entry at `p` is a step that ends there. */
  predicate ValidEdge(src: seq<byte>, ip: nat, p: nat, o: Opt) {
    1 <= o.mlen <= Max(p, 1) && (p > 0 ==> ValidStep(src, ip, p - o.mlen, o.mlen, o.off))
  }

  /** All entries up to `end` are such steps; position 0 starts every path. */
  predicate ValidTable(src: seq<byte>, ip: nat, opt: seq<Opt>, end: int) {
    end < |opt| && forall p :: 0 <= p <= end ==> ValidEdge(src, ip, p, opt[p])
  }

  // ---------------------------------------------------------------- paths

  datatype Move = Move(from: nat, mlen: nat, off: nat) {
    function End(): nat { from + mlen }
  }

  /** The way to `p` that the table records, first step first. */
  function PathTo(src: seq<byte>, ip: nat, opt: seq<Opt>, p: nat): seq<Move>
    requires ValidTable(src, ip, opt, p)
  {
    if p == 0 then [] else
      var from := p - opt[p].mlen;
      PathTo(src, ip, opt, from) + [Move(from, opt[p].mlen, opt[p].off)]
  }

  /** The walk the encoder makes: from `r`, each entry says how far to go, until `end` is reached. */
  function Walk(opt: seq<Opt>, r: nat, end: nat): seq<Move>
    requires end <= |opt| && forall p :: r <= p < end ==> opt[p].mlen >= 1
    decreases end - r
  {
    if r >= end then [] else [Move(r, opt[r].mlen, opt[r].off)] + Walk(opt, r + opt[r].mlen, end)
  }

  lemma {:induction false} WalkFrame(a: seq<Opt>, b: seq<Opt>, r: nat, end: nat)
    requires end <= |a| == |b|
    requires forall p :: r <= p < end ==> a[p].mlen >= 1 && b[p] == a[p]
    ensures Walk(a, r, end) == Walk(b, r, end)
    decreases end - r
  {
    if r < end {
      WalkFrame(a, b, r + a[r].mlen, end);
    }
  }

  /** Every step of a recorded path is valid. */
  lemma {:induction false} PathIsValid(src: seq<byte>, ip: nat, opt: seq<Opt>, p: nat)
    requires ValidTable(src, ip, opt, p)
    ensures forall m <- PathTo(src, ip, opt, p) :: ValidStep(src, ip, m.from, m.mlen, m.off) && m.mlen >= 1
  {
    if p > 0 {
      assert ValidEdge(src, ip, p, opt[p]);
      PathIsValid(src, ip, opt, p - opt[p].mlen);
    }
  }

  lemma TableSteps(src: seq<byte>, ip: nat, opt: seq<Opt>, end: nat)
    requires ValidTable(src, ip, opt, end)
    ensures forall p :: 0 <= p <= end ==> opt[p].mlen >= 1
  {
    forall p | 0 <= p <= end ensures opt[p].mlen >= 1 {
      assert ValidEdge(src, ip, p, opt[p]);
    }
  }

  lemma WalkIsOver(opt: seq<Opt>, r: nat, end: nat)
    requires end <= |opt| && end <= r
    ensures Walk(opt, r, end) == []
  {
  }

  /** Overwriting the entry at `r` puts one step in front of the walk from where it leads. */
  lemma WalkPush(was: seq<Opt>, now: seq<Opt>, r: nat, mlen: nat, off: nat, end: nat)
    requires r < end <= |was| == |now| && mlen >= 1 && now[r].mlen == mlen && now[r].off == off
    requires forall p :: r < p < end ==> was[p].mlen >= 1 && now[p] == was[p]
    ensures Walk(now, r, end) == [Move(r, mlen, off)] + Walk(was, r + mlen, end)
  {
    WalkFrame(was, now, r + mlen, end);
  }

  /** Turning one recorded step around. */
  lemma PathSplit(src: seq<byte>, ip: nat, opt: seq<Opt>, p: nat, last: Move, tail: seq<Move>)
    requires ValidTable(src, ip, opt, p)
    ensures 1 <= opt[p].mlen && (opt[p].mlen > p <==> p == 0)
    ensures p == 0 ==> PathTo(src, ip, opt, p) + [last] + tail == [last] + tail
    ensures p > 0 ==> var from := p - opt[p].mlen;
      PathTo(src, ip, opt, p) + [last] + tail
      == PathTo(src, ip, opt, from) + [Move(from, opt[p].mlen, opt[p].off)] + ([last] + tail)
  {
    assert ValidEdge(src, ip, p, opt[p]);
  }

  /** The reverse traversal: after it, walking forward from 0 visits exactly the recorded path
      to `cur` and then the chosen last step. */
  method ReverseTraversal(opt: array<Opt>, cur: nat, bestMlen: nat, bestOff: nat, end: nat, ghost src: seq<byte>,
      ghost ip: nat)
    requires cur < end <= cur + bestMlen && end <= opt.Length
    requires ValidTable(src, ip, opt[..], end)
    modifies opt
    ensures forall p :: 0 <= p < end ==> opt[p].mlen >= 1
    ensures Walk(opt[..], 0, end) == PathTo(src, ip, old(opt[..]), cur) + [Move(cur, bestMlen, bestOff)]
  {
    hide ValidEdge, Walk, PathTo;
    ghost var before := opt[..];
    ghost var path := PathTo(src, ip, before, cur) + [Move(cur, bestMlen, bestOff)];
    ghost var tail: seq<Move> := [];
    var candidatePos: nat, selectedMlen: nat, selectedOff: nat := cur, bestMlen, bestOff;
    TableSteps(src, ip, before, end);
    WalkIsOver(before, cur + bestMlen, end);
    while true
      invariant candidatePos <= cur && selectedMlen >= 1
      invariant forall p :: 0 <= p < end ==> opt[p].mlen >= 1
      invariant forall p :: 0 <= p <= candidatePos ==> opt[p] == before[p]
      invariant Walk(opt[..], candidatePos + selectedMlen, end) == tail
      invariant path == PathTo(src, ip, before, candidatePos) + [Move(candidatePos, selectedMlen, selectedOff)] + tail
      decreases candidatePos
    {
      ghost var was := opt[..];
      var nextMlen, nextOff := opt[candidatePos].mlen, opt[candidatePos].off;
      opt[candidatePos] := opt[candidatePos].(mlen := selectedMlen, off := selectedOff);
      WalkPush(was, opt[..], candidatePos, selectedMlen, selectedOff, end);
      PathSplit(src, ip, before, candidatePos, Move(candidatePos, selectedMlen, selectedOff), tail);
      tail := [Move(candidatePos, selectedMlen, selectedOff)] + tail;
      selectedMlen, selectedOff := nextMlen, nextOff;
      if nextMlen > candidatePos { break; }
      candidatePos := candidatePos - nextMlen;
    }
  }

  // ---------------------------------------------------------------- filling the table

  lemma LiteralEdge(src: seq<byte>, ip: nat, p: nat, o: Opt)
    requires o.mlen == 1
    ensures ValidEdge(src, ip, p, o)
  {
  }

  /** Any length from 4 to that of a real match is a valid step from its start. */
  lemma MatchEdge(src: seq<byte>, ip: nat, from: nat, len: nat, off: nat, o: Opt)
    requires off <= ip + from && RealMatch(src, ip + from, ip + from - off, len)
    requires MINMATCH <= o.mlen <= len && o.off == off
    ensures ValidEdge(src, ip, from + o.mlen, o)
  {
  }

  /** The three entries after `last` become literals. */
  method TrailingLiterals(opt: array<Opt>, last: nat, ghost src: seq<byte>, ghost ip: nat)
    requires last + TRAILING_LITERALS < opt.Length && ValidTable(src, ip, opt[..], last)
    modifies opt
    ensures ValidTable(src, ip, opt[..], last + TRAILING_LITERALS)
  {
    hide ValidEdge;
    var addLit := 1;
    while addLit <= TRAILING_LITERALS
      invariant 1 <= addLit <= TRAILING_LITERALS + 1
      invariant ValidTable(src, ip, opt[..], last + addLit - 1)
    {
      opt[last + addLit] := Opt(opt[last].price + LiteralsPrice(addLit), 0, 1, addLit);
      LiteralEdge(src, ip, last + addLit, opt[last + addLit]);
      addLit := addLit + 1;
    }
  }

  /** Prices for the literals and lengths of the first match. */
  method InitialPrices(opt: array<Opt>, llen: nat, firstLen: nat, firstOff: nat, ghost src: seq<byte>, ghost ip: nat)
    requires opt.Length == LZ4_OPT_NUM + TRAILING_LITERALS && MINMATCH <= firstLen < LZ4_OPT_NUM
    requires firstOff <= ip && RealMatch(src, ip, ip - firstOff, firstLen)
    modifies opt
    ensures ValidTable(src, ip, opt[..], firstLen + TRAILING_LITERALS)
  {
    hide ValidEdge, RealMatch;
    var rPos := 0;
    while rPos < MINMATCH
      invariant 0 <= rPos <= MINMATCH && ValidTable(src, ip, opt[..], rPos - 1)
    {
      opt[rPos] := Opt(LiteralsPrice(llen + rPos), 0, 1, llen + rPos);
      LiteralEdge(src, ip, rPos, opt[rPos]);
      rPos := rPos + 1;
    }
    var mlen := MINMATCH;
    while mlen <= firstLen
      invariant MINMATCH <= mlen <= firstLen + 1 && ValidTable(src, ip, opt[..], mlen - 1)
    {
      opt[mlen] := Opt(SequencePrice(llen, mlen), firstOff, mlen, llen);
      MatchEdge(src, ip, 0, firstLen, firstOff, opt[mlen]);
      mlen := mlen + 1;
    }
    TrailingLiterals(opt, firstLen, src, ip);
  }

  /** `o`, or `n` literals after the entry `base` if they are cheaper. */
  function Cheaper(base: Opt, n: nat, o: Opt): Opt {
    var price := LiteralsAfter(base.price, base.litlen, n);
    if price < o.price then Opt(price, 0, 1, base.litlen + n) else o
  }

  /** Literals after `cur`, where they are cheaper. */
  method PriceLiteralsFrom(opt: array<Opt>, cur: nat, last: nat, ghost src: seq<byte>, ghost ip: nat)
    requires cur < last && last + TRAILING_LITERALS < opt.Length
             && ValidTable(src, ip, opt[..], last + TRAILING_LITERALS)
    modifies opt
    ensures ValidTable(src, ip, opt[..], last + TRAILING_LITERALS) && opt[cur] == old(opt[cur])
    ensures forall p :: 0 <= p < opt.Length ==>
      opt[p] == if cur < p < cur + MINMATCH then old(Cheaper(opt[cur], p - cur, opt[p])) else old(opt[p])
  {
    hide ValidEdge, LiteralsPrice;
    var baseLitlen, litlen := opt[cur].litlen, 1;
    while litlen < MINMATCH
      invariant 1 <= litlen <= MINMATCH && ValidTable(src, ip, opt[..], last + TRAILING_LITERALS)
                && opt[cur] == old(opt[cur])
      invariant forall p :: 0 <= p < opt.Length ==>
        opt[p] == if cur < p < cur + litlen then old(Cheaper(opt[cur], p - cur, opt[p])) else old(opt[p])
    {
      var price := opt[cur].price - LiteralsPrice(baseLitlen) + LiteralsPrice(baseLitlen + litlen);
      var pos := cur + litlen;
      if price < opt[pos].price {
        opt[pos] := Opt(price, 0, 1, baseLitlen + litlen);
        LiteralEdge(src, ip, pos, opt[pos]);
      }
      litlen := litlen + 1;
    }
  }

  /** All lengths of a match at `cur`, where they are cheaper or reach further. */
  method PriceMatchFrom(opt: array<Opt>, cur: nat, last0: nat, matchML: nat, offset: nat, favorDecSpeed: bool,
      src: seq<byte>, ip: nat)
    returns (last: nat)
    requires opt.Length == LZ4_OPT_NUM + TRAILING_LITERALS && 1 <= cur < last0 < LZ4_OPT_NUM
             && cur + matchML < LZ4_OPT_NUM
    requires ValidTable(src, ip, opt[..], last0 + TRAILING_LITERALS)
    requires MINMATCH <= matchML && offset <= ip + cur && RealMatch(src, ip + cur, ip + cur - offset, matchML)
    modifies opt
    ensures last == last0 || last0 < last == cur + matchML
    ensures ValidTable(src, ip, opt[..], last)
  {
    hide ValidEdge, RealMatch;
    last := last0;
    var ml := MINMATCH;
    while ml <= matchML
      invariant MINMATCH <= ml <= matchML + 1
      invariant last == last0 || (last0 < last == cur + matchML && ml == matchML + 1)
      invariant ValidTable(src, ip, opt[..], Max(last0 + TRAILING_LITERALS, cur + ml - 1))
    {
      var pos := cur + ml;
      var ll, price := 0, 0;
      if opt[cur].mlen == 1 {
        ll := opt[cur].litlen;
        price := (if cur > ll then opt[cur - ll].price else 0) + SequencePrice(ll, ml);
      } else {
        price := opt[cur].price + SequencePrice(0, ml);
      }
      if pos > last + TRAILING_LITERALS || price <= opt[pos].price - (if favorDecSpeed then 1 else 0) {
        if ml == matchML && last < pos { last := pos; }
        opt[pos] := Opt(price, offset, ml, ll);
        MatchEdge(src, ip, cur, matchML, offset, opt[pos]);
      }
      ml := ml + 1;
    }
  }

  // ---------------------------------------------------------------- the parser

  datatype Longer = Longer(len: nat, off: nat)

  /** A match starting at `ip`, or a length of 0. */
  predicate RealAt(src: seq<byte>, ip: nat, m: Longer) {
    m.len > 0 ==> m.off <= ip && RealMatch(src, ip, ip - m.off, m.len)
  }

  lemma StartsHere(src: seq<byte>, ip: nat, longest: nat, b: Best, len: nat)
    requires ip + MFLIMIT <= |src| && IsBest(b, src, ip, ip, |src| - LASTLITERALS, longest)
    requires b.length > longest && MINMATCH <= len <= b.length
    ensures b.startpos == ip && b.matchpos <= ip && RealAt(src, ip, Longer(len, ip - b.matchpos))
  {
  }

  lemma BestIsLong(src: seq<byte>, ip: nat, longest: nat, b: Best)
    requires ip + MFLIMIT <= |src| && IsBest(b, src, ip, ip, |src| - LASTLITERALS, longest) && b.length > longest
    ensures b.length >= MINMATCH
  {
  }

  /** LZ4HC_FindLongerMatch: never reaches back before `ip`; to favour decoding speed, lengths
      between 19 and 36 are cut to 18. */
  method FindLongerMatch(index: Index, src: seq<byte>, ip: nat, minLen: nat, nbSearches: nat, favorDecSpeed: bool)
    returns (m: Longer)
    requires index.Valid(src) && index.nextToUpdate <= index.start + ip
    requires ip + MFLIMIT <= |src| && 1 <= minLen && ip + minLen + LASTLITERALS <= |src|
    modifies index`nextToUpdate, index.hashTable, index.chainTable
    ensures index.Valid(src) && index.nextToUpdate == index.start + ip
    ensures RealAt(src, ip, m)
    ensures m.len == 0 || m.len > minLen || (favorDecSpeed && m.len == OPTIMAL_ML)
  {
    hide WiderMatch, RealMatch, IsBest, RealAt;
    var b :=
        InsertAndGetWiderMatch(index, src, ip, ip, |src| - LASTLITERALS, minLen, nbSearches, true, true, favorDecSpeed);
    if b.length <= minLen { return NoMatch(src, ip); }
    var matchLength := b.length;
    BestIsLong(src, ip, minLen, b);
    if favorDecSpeed && 18 < matchLength <= 36 { matchLength := 18; }
    StartsHere(src, ip, minLen, b, matchLength);
    return Longer(matchLength, ip - b.matchpos);
  }

  function NoMatch(src: seq<byte>, ip: nat): (m: Longer)
    ensures m.len == 0 && RealAt(src, ip, m)
  {
    Longer(0, 0)
  }

  /** A last step at `cur`, after the path the table has for `cur`, that reaches `end` or beyond. */
  datatype Choice = Choice(cur: nat, mlen: nat, off: nat, end: nat)

  predicate ValidChoice(src: seq<byte>, ip: nat, opt: seq<Opt>, c: Choice) {
    && c.cur < c.end <= c.cur + c.mlen && ValidTable(src, ip, opt, c.end)
    && ValidStep(src, ip, c.cur, c.mlen, c.off)
  }

  lemma TableChoice(src: seq<byte>, ip: nat, opt: seq<Opt>, last: nat)
    requires last > 0 && ValidTable(src, ip, opt, last + TRAILING_LITERALS)
    ensures 1 <= opt[last].mlen <= last
    ensures ValidChoice(src, ip, opt, Choice(last - opt[last].mlen, opt[last].mlen, opt[last].off, last))
  {
    assert ValidEdge(src, ip, last, opt[last]);
  }

  lemma ImmediateChoice(src: seq<byte>, ip: nat, opt: seq<Opt>, last: nat, cur: nat, m: Longer)
    requires cur < last && ValidTable(src, ip, opt, last + TRAILING_LITERALS) && m.len > 0 && RealAt(src, ip + cur, m)
    ensures ValidChoice(src, ip, opt, Choice(cur, m.len, m.off, cur + 1))
  {
  }

  /** Whether a search at `cur` is skipped because the next position is no more expensive. */
  method SkipsSearch(opt: array<Opt>, cur: nat, fullUpdate: bool) returns (skip: bool)
    requires cur + MINMATCH < opt.Length
    ensures skip <==>
      opt[cur + 1].price <= opt[cur].price && (fullUpdate ==> opt[cur + MINMATCH].price < opt[cur].price + 3)
  {
    skip := opt[cur + 1].price <= opt[cur].price;
    if fullUpdate {
      skip := skip && opt[cur + MINMATCH].price < opt[cur].price + 3;
    }
  }

  /** The positions after a first match: better ways to reach them and those beyond, until no
      match reaches further, or one is long enough to be taken at once. */
  method CheckFurther(index: Index, opt: array<Opt>, src: seq<byte>, ip: nat, firstLen: nat, nbSearches: nat,
      sufficientLen: nat, fullUpdate: bool, favorDecSpeed: bool)
    returns (choice: Choice)
    requires index.Valid(src) && index.nextToUpdate <= index.start + ip
    requires opt.Length == LZ4_OPT_NUM + TRAILING_LITERALS && MINMATCH <= firstLen < LZ4_OPT_NUM
    requires opt != index.hashTable as object && opt != index.chainTable as object
    requires ip + firstLen + LASTLITERALS <= |src| && ValidTable(src, ip, opt[..], firstLen + TRAILING_LITERALS)
    modifies index`nextToUpdate, index.hashTable, index.chainTable, opt
    ensures index.Valid(src) && index.nextToUpdate <= index.start + ip + choice.end
    ensures ValidChoice(src, ip, opt[..], choice)
  {
    hide ValidTable, ValidChoice, ValidEdge, RealMatch, RealAt;
    var last, cur := firstLen, 1;
    while cur < last && ip + cur + MFLIMIT <= |src|
      invariant 1 <= cur <= last < LZ4_OPT_NUM && ip + last + LASTLITERALS <= |src|
      invariant index.Valid(src) && index.nextToUpdate <= index.start + ip + cur
      invariant ValidTable(src, ip, opt[..], last + TRAILING_LITERALS)
      decreases |src| - cur
    {
      var skip := SkipsSearch(opt, cur, fullUpdate);
      if !skip {
        var newMatch :=
            FindLongerMatch(index, src, ip + cur, if fullUpdate then MINMATCH - 1
                else last - cur, nbSearches, favorDecSpeed);
        if newMatch.len > 0 {
          if newMatch.len > sufficientLen || newMatch.len + cur >= LZ4_OPT_NUM {
            ImmediateChoice(src, ip, opt[..], last, cur, newMatch);
            return Choice(cur, newMatch.len, newMatch.off, cur + 1);
          }
          RealAtEnds(src, ip + cur, newMatch);
          PriceLiteralsFrom(opt, cur, last, src, ip);
          last := PriceMatchFrom(opt, cur, last, newMatch.len, newMatch.off, favorDecSpeed, src, ip);
          TrailingLiterals(opt, last, src, ip);
        }
      }
      cur := cur + 1;
    }
    TableChoice(src, ip, opt[..], last);
    return Choice(last - opt[last].mlen, opt[last].mlen, opt[last].off, last);
  }

  lemma RealAtEnds(src: seq<byte>, ip: nat, m: Longer)
    requires m.len > 0 && RealAt(src, ip, m)
    ensures MINMATCH <= m.len && ip + m.len + LASTLITERALS <= |src|
    ensures m.off <= ip && RealMatch(src, ip, ip - m.off, m.len)
  {
  }

  /** All steps still to be walked are valid. */
  predicate ValidWalk(src: seq<byte>, ip: nat, moves: seq<Move>) {
    forall m <- moves :: m.mlen >= 1 && ValidStep(src, ip, m.from, m.mlen, m.off)
  }

  lemma ChoiceWalk(src: seq<byte>, ip: nat, opt: seq<Opt>, c: Choice)
    requires ValidChoice(src, ip, opt, c)
    ensures c.cur < c.end <= c.cur + c.mlen && c.end < |opt| && ValidTable(src, ip, opt, c.end)
    ensures ValidTable(src, ip, opt, c.cur)
            && ValidWalk(src, ip, PathTo(src, ip, opt, c.cur) + [Move(c.cur, c.mlen, c.off)])
  {
    PathIsValid(src, ip, opt, c.cur);
  }

  lemma WalkStep(src: seq<byte>, ip: nat, opt: seq<Opt>, r: nat, end: nat)
    requires r < end <= |opt| && (forall p :: 0 <= p < end ==> opt[p].mlen >= 1)
             && ValidWalk(src, ip, Walk(opt, r, end))
    ensures ValidStep(src, ip, r, opt[r].mlen, opt[r].off) && ValidWalk(src, ip, Walk(opt, r + opt[r].mlen, end))
  {
    var w := Walk(opt, r, end);
    assert w[0] == Move(r, opt[r].mlen, opt[r].off);
    assert w[1..] == Walk(opt, r + opt[r].mlen, end);
  }

  /** The encoding loop: walks forward from 0, skipping literals and encoding the matches. */
  method EncodeWalk(dst: array<byte>, op0: nat, src: seq<byte>, anchor0: nat, ip0: nat, opt: array<Opt>, end: nat,
      limit: Limit, ghost ss0: seq<Sequence>)
    returns (ok: bool, op: nat, anchor: nat, ip: nat, ghost ss: seq<Sequence>)
    requires dst != opt as object && HcRoom(|src|, dst.Length, limit)
    requires HcBuilding(ss0, src, anchor0, dst, op0, limit) && anchor0 <= ip0
    requires end <= opt.Length && (forall p :: 0 <= p < end ==> opt[p].mlen >= 1)
    requires ValidWalk(src, ip0, Walk(opt[..], 0, end))
    modifies dst
    ensures limit == notLimited ==> ok
    ensures HcBuilding(ss, src, anchor, dst, op, limit)
    ensures ok ==> anchor <= ip && ip0 + end <= ip
  {
    hide HcBuilding, Walk, ValidWalk, RealMatch;
    op, anchor, ip, ss, ok := op0, anchor0, ip0, ss0, true;
    var rPos := 0;
    while rPos < end
      invariant anchor <= ip == ip0 + rPos
      invariant HcBuilding(ss, src, anchor, dst, op, limit)
      invariant ValidWalk(src, ip0, Walk(opt[..], rPos, end))
      decreases end - rPos
    {
      var ml, offset := opt[rPos].mlen, opt[rPos].off;
      WalkStep(src, ip0, opt[..], rPos, end);
      rPos := rPos + ml;
      if ml == 1 { ip := ip + 1; continue; }
      var op': nat;
      ghost var ss': seq<Sequence>;
      ok, op', ss' := Emit(dst, op, src, anchor, ip, ml, ip - offset, limit, ss);
      if !ok { return; }
      ip := ip + ml;
      op, anchor, ss := op', ip, ss';
    }
  }

  /** One round of the main loop, from a first match at `ip`. */
  method EncodeCheapest(index: Index, opt: array<Opt>, dst: array<byte>, op0: nat, src: seq<byte>, anchor0: nat,
      ip0: nat, firstMatch: Longer, nbSearches: nat, sufficientLen: nat, limit: Limit, fullUpdate: bool,
      favorDecSpeed: bool, ghost ss0: seq<Sequence>)
    returns (ok: bool, op: nat, anchor: nat, ip: nat, ghost ss: seq<Sequence>)
    requires index.Valid(src) && index.nextToUpdate <= index.start + ip0
    requires opt.Length == LZ4_OPT_NUM + TRAILING_LITERALS && 0 < firstMatch.len < LZ4_OPT_NUM
    requires opt != index.hashTable as object && opt != index.chainTable as object && dst != opt as object
    requires dst != index.hashTable as object && dst != index.chainTable as object
    requires HcRoom(|src|, dst.Length, limit) && HcBuilding(ss0, src, anchor0, dst, op0, limit) && anchor0 <= ip0
    requires RealAt(src, ip0, firstMatch)
    modifies index`nextToUpdate, index.hashTable, index.chainTable, opt, dst
    ensures index.Valid(src)
    ensures limit == notLimited ==> ok
    ensures HcBuilding(ss, src, anchor, dst, op, limit)
    ensures ok ==> anchor <= ip && ip0 < ip && index.nextToUpdate <= index.start + ip
  {
    hide HcBuilding, Walk, ValidWalk, RealMatch, ValidTable, ValidEdge, RealAt, PathTo;
    RealAtEnds(src, ip0, firstMatch);
    InitialPrices(opt, ip0 - anchor0, firstMatch.len, firstMatch.off, src, ip0);
    var choice :=
        CheckFurther(index, opt, src, ip0, firstMatch.len, nbSearches, sufficientLen, fullUpdate, favorDecSpeed);
    ChoiceWalk(src, ip0, opt[..], choice);
    ReverseTraversal(opt, choice.cur, choice.mlen, choice.off, choice.end, src, ip0);
    ok, op, anchor, ip, ss := EncodeWalk(dst, op0, src, anchor0, ip0, opt, choice.end, limit, ss0);
  }

  /** LZ4HC_compress_optimal, with a fresh index. */
  method CompressOptimal(index: Index, src: seq<byte>, dst: array<byte>, nbSearches: nat, sufficientLen0: nat,
      limit: Limit, fullUpdate: bool, favorDecSpeed: bool)
    returns (r: nat, consumed: nat)
    requires index.Fresh()
    requires dst != index.hashTable as object && dst != index.chainTable as object
    requires HcRoom(|src|, dst.Length, limit) && (limit == fillOutput ==> dst.Length >= 1)
    modifies index`nextToUpdate, index.hashTable, index.chainTable, dst
    ensures index.Valid(src)
    ensures consumed <= |src| && (limit != fillOutput && r > 0 ==> consumed == |src|)
    ensures r == 0 ==> limit == limitedOutput
    ensures r > 0 ==> r <= dst.Length && r <= |src| + |src| / 255 + 16 && DecodesTo(dst[..r], src[..consumed])
  {
    hide HcBuilding, RealMatch, DecodesTo, RealAt;
    var opt := new Opt[LZ4_OPT_NUM + TRAILING_LITERALS];
    var ip: nat, anchor: nat, op: nat, ok := 0, 0, 0, true;
    ghost var ss: seq<Sequence> := [];
    StartBuilding(src, dst, limit);
    var sufficientLen := if sufficientLen0 >= LZ4_OPT_NUM then LZ4_OPT_NUM - 1 else sufficientLen0;
    while ok && ip + MFLIMIT <= |src|
      invariant index.Valid(src) && HcBuilding(ss, src, anchor, dst, op, limit)
      invariant ok ==> index.nextToUpdate <= index.start + ip && anchor <= ip
      invariant limit == notLimited ==> ok
      decreases ok, |src| - ip
    {
      var firstMatch := FindLongerMatch(index, src, ip, MINMATCH - 1, nbSearches, favorDecSpeed);
      if firstMatch.len == 0 { ip := ip + 1; continue; }
      RealAtEnds(src, ip, firstMatch);
      var op': nat;
      ghost var ss': seq<Sequence>;
      if firstMatch.len > sufficientLen {
        ok, op', ss' := Emit(dst, op, src, anchor, ip, firstMatch.len, ip - firstMatch.off, limit, ss);
        if ok {
          ip := ip + firstMatch.len;
          op, anchor, ss := op', ip, ss';
        }
        continue;
      }
      ok, op, anchor, ip, ss :=
          EncodeCheapest(index, opt, dst, op, src, anchor, ip, firstMatch, nbSearches, sufficientLen, limit, fullUpdate,
              favorDecSpeed, ss);
    }
    if !ok && limit != fillOutput { return 0, 0; }
    r, consumed := EncodeLastLiterals(dst, src, anchor, op, limit, ss);
  }
}
