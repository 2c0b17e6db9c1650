/** LZ4HC_InsertAndGetWiderMatch on one contiguous input. */
module HcSearch {
  import opened Bytes
  import opened BlockFormat
  import opened MatchCount
  import opened Hashing
  import opened HcMatchFinder

  // ---------------------------------------------------------------- what is searched for

  /** How far a match at distance `offset` extends backwards from `ip`, within the input and
      not below `low`. */
  function BackLength(src: seq<byte>, ip: nat, offset: nat, low: nat): (back: nat)
    requires 0 < offset <= ip <= |src|
    ensures back <= ip
    decreases ip
  {
    if ip > low && ip > offset && src[ip - 1] == src[ip - 1 - offset] then 1 + BackLength(src, ip - 1, offset, low)
        else 0
  }

  /** The full length of the match that candidate `m` gives at `ip`, or 0 if fewer than 4 bytes
      agree: backwards down to `low`, forwards up to `high`. */
  function WideLength(src: seq<byte>, ip: nat, low: nat, high: nat, m: nat): nat
    requires m < ip && ip + 4 <= high <= |src|
  {
    if src[m..m + 4] == src[ip..ip + 4]
    then BackLength(src, ip, ip - m, low) + MINMATCH + CommonLength(src, ip + MINMATCH, ip - m, high)
    else 0
  }

  /** A match found for `ip`: it may start as early as `low`, covers the 4 bytes at `ip`, ends
      by `high`, and is real. */
  predicate WiderMatch(src: seq<byte>, ip: nat, low: nat, high: nat, startpos: nat, matchpos: nat, length: nat) {
    && low <= startpos <= ip && matchpos < startpos <= matchpos + DISTANCE_MAX
    && ip + MINMATCH <= startpos + length <= high <= |src|
    && Repeats(src, startpos, startpos + length, startpos - matchpos)
  }

  lemma {:induction false} BackAgrees(src: seq<byte>, ip: nat, offset: nat, low: nat)
    requires 0 < offset <= ip <= |src|
    ensures var back := BackLength(src, ip, offset, low);
      && back <= ip - offset && (low <= ip ==> low <= ip - back)
      && Repeats(src, ip - back, ip, offset)
    decreases ip
  {
    if ip > low && ip > offset && src[ip - 1] == src[ip - 1 - offset] {
      BackAgrees(src, ip - 1, offset, low);
    }
  }

  lemma FourAgree(src: seq<byte>, ip: nat, m: nat)
    requires m < ip && ip + 4 <= |src| && src[m..m + 4] == src[ip..ip + 4]
    ensures Repeats(src, ip, ip + 4, ip - m)
  {
    forall k | ip <= k < ip + 4 ensures src[k] == src[k - (ip - m)] {
      assert src[ip..ip + 4][k - ip] == src[m..m + 4][k - ip];
    }
  }

  /** A candidate that agrees on 4 bytes within reach is a match of its full length. */
  lemma CandidateIsMatch(src: seq<byte>, ip: nat, low: nat, high: nat, m: nat)
    requires m < ip <= m + DISTANCE_MAX && low <= ip && ip + 4 <= high <= |src|
    requires src[m..m + 4] == src[ip..ip + 4]
    ensures var back := BackLength(src, ip, ip - m, low);
      && back <= m && WiderMatch(src, ip, low, high, ip - back, m - back, WideLength(src, ip, low, high, m))
  {
    hide CommonLength, BackLength;
    BackAgrees(src, ip, ip - m, low);
    FourAgree(src, ip, m);
    CommonLengthIsLongest(src, ip + MINMATCH, ip - m, high);
  }

  /** The two-byte prefilter: a candidate that would beat `longest` agrees at the two bytes
      that end a match one byte longer, so it is never rejected. */
  lemma PrefilterIsSafe(src: seq<byte>, ip: nat, low: nat, high: nat, m: nat, longest: nat)
    requires m < ip <= m + DISTANCE_MAX && low <= ip && ip + 4 <= high <= |src|
    requires 1 <= longest && ip - low < longest < WideLength(src, ip, low, high, m)
    ensures var p := low + longest - 1;
      p + 2 <= |src| && ip - m <= p && src[p..p + 2] == src[p - (ip - m)..p - (ip - m) + 2]
  {
    hide CommonLength, BackLength;
    CandidateIsMatch(src, ip, low, high, m);
    var p, d := low + longest - 1, ip - m;
    assert src[p] == src[p - d] && src[p + 1] == src[p + 1 - d];
  }

  // ---------------------------------------------------------------- counting

  /** LZ4HC_countBack, as a non-negative count. */
  method CountBack(src: seq<byte>, ip: nat, m: nat, iMin: nat) returns (back: nat)
    requires m < ip <= |src| && iMin <= ip
    ensures back == BackLength(src, ip, ip - m, iMin)
  {
    back := 0;
    while back < Min(ip - iMin, m) && src[ip - back - 1] == src[m - back - 1]
      invariant back <= Min(ip - iMin, m)
      invariant BackLength(src, ip, ip - m, iMin) == back + BackLength(src, ip - back, ip - m, iMin)
    {
      back := back + 1;
    }
  }

  predicate AllBytes(src: seq<byte>, lo: nat, hi: nat, b: byte) {
    lo <= hi <= |src| && forall k :: lo <= k < hi ==> src[k] == b
  }

  /** LZ4HC_countPattern for a pattern of one repeated byte. */
  method CountPattern(src: seq<byte>, ip0: nat, iEnd: nat, b: byte) returns (n: nat)
    requires ip0 <= iEnd <= |src|
    ensures ip0 + n <= iEnd && AllBytes(src, ip0, ip0 + n, b)
  {
    var ip := ip0;
    var pattern: seq<byte> := [b, b, b, b, b, b, b, b];
    while ip < iEnd - 7
      invariant ip0 <= ip <= iEnd && AllBytes(src, ip0, ip, b)
    {
      var word := src[ip..ip + 8];
      if word != pattern {
        var common := NbCommonBytes(word, pattern);
        assert forall k :: ip <= k < ip + common ==> src[k] == word[k - ip];
        return ip + common - ip0;
      }
      assert forall k :: ip <= k < ip + 8 ==> src[k] == word[k - ip];
      ip := ip + 8;
    }
    while ip < iEnd && src[ip] == b
      invariant ip0 <= ip <= iEnd && AllBytes(src, ip0, ip, b)
    {
      ip := ip + 1;
    }
    n := ip - ip0;
  }

  /** LZ4HC_reverseCountPattern for a pattern of one repeated byte. */
  method ReverseCountPattern(src: seq<byte>, ip0: nat, iLow: nat, b: byte) returns (n: nat)
    requires ip0 <= |src|
    ensures n <= Max(0, ip0 - iLow) && AllBytes(src, ip0 - n, ip0, b)
  {
    var ip := ip0;
    while ip >= iLow + 4
      invariant Min(iLow, ip0) <= ip <= ip0 && AllBytes(src, ip, ip0, b)
    {
      var word := src[ip - 4..ip];
      if word != [b, b, b, b] { break; }
      assert forall k :: ip - 4 <= k < ip ==> src[k] == word[k - (ip - 4)];
      ip := ip - 4;
    }
    while ip > iLow && src[ip - 1] == b
      invariant Min(iLow, ip0) <= ip <= ip0 && AllBytes(src, ip, ip0, b)
    {
      ip := ip - 1;
    }
    n := ip0 - ip;
  }

  // ---------------------------------------------------------------- candidates

  /** The best match known so far; `length` alone is meaningful until one has been found. */
  datatype Best = Best(length: nat, matchpos: nat, startpos: nat)

  /** `b` is the bound that was asked to be beaten, or a real match that beats it. */
  predicate IsBest(b: Best, src: seq<byte>, ip: nat, low: nat, high: nat, longest: nat) {
    b.length >= longest && low + b.length <= high &&
    (b.length > longest ==> WiderMatch(src, ip, low, high, b.startpos, b.matchpos, b.length))
  }

  /** One candidate inside the current input: prefilter, 4-byte check, then both counts. */
  method TryCandidate(src: seq<byte>, ip: nat, low: nat, high: nat, m: nat, longest: nat, b: Best)
    returns (matchLength: nat, b': Best)
    requires m < ip <= m + DISTANCE_MAX && low <= ip && ip + 4 <= high < |src|
    requires 1 <= longest && ip - low < longest && IsBest(b, src, ip, low, high, longest)
    ensures IsBest(b', src, ip, low, high, longest) && b'.length >= b.length
    ensures b'.length >= WideLength(src, ip, low, high, m)
    ensures b' == b || (matchLength == b'.length == WideLength(src, ip, low, high, m) > b.length)
  {
    hide CommonLength, BackLength;
    matchLength, b' := 0, b;
    var p := low + b.length - 1;
    if WideLength(src, ip, low, high, m) > b.length {
      PrefilterIsSafe(src, ip, low, high, m, b.length);
    }
    if src[p..p + 2] == src[p - (ip - m)..p - (ip - m) + 2] {
      if src[m..m + 4] == src[ip..ip + 4] {
        CandidateIsMatch(src, ip, low, high, m);
        var back := 0;
        if ip > low {
          back := CountBack(src, ip, m, low);
        } else {
          assert BackLength(src, ip, ip - m, low) == 0 by { NoBack(src, ip, ip - m, low); }
        }
        var forward := LZ4_count(src, ip + MINMATCH, m + MINMATCH, high);
        matchLength := MINMATCH + forward + back;
        if matchLength > b.length {
          b' := Best(matchLength, m - back, ip - back);
        }
      }
    }
  }

  lemma NoBack(src: seq<byte>, ip: nat, offset: nat, low: nat)
    requires 0 < offset <= ip <= |src| && ip <= low
    ensures BackLength(src, ip, offset, low) == 0
  {
  }

  // ---------------------------------------------------------------- the search

  /** Every candidate after position `from`, within reach of `ip`, gives at most `length`. */
  ghost predicate Covered(src: seq<byte>, ip: nat, low: nat, high: nat, from: int, length: nat)
    requires ip + 4 <= high <= |src|
  {
    forall m: nat :: from < m < ip <= m + DISTANCE_MAX ==> WideLength(src, ip, low, high, m) <= length
  }

  lemma OtherHashIsNoMatch(hash: Hash, src: seq<byte>, ip: nat, low: nat, high: nat, m: nat)
    requires m < ip && ip + 4 <= high <= |src| && HashAt(hash, src, m) != HashAt(hash, src, ip)
    ensures WideLength(src, ip, low, high, m) == 0
  {
  }

  /** Before the first candidate: the head of the chain skips nothing. */
  lemma HeadCovers(hash: Hash, src: seq<byte>, start: nat, ip: nat, low: nat, high: nat, head: nat, length: nat)
    requires ip + 4 <= high <= |src| && IsHead(hash, src, start, ip, HashAt(hash, src, ip), head)
    ensures Covered(src, ip, low, high, head - start, length)
  {
    forall m: nat | head - start < m < ip <= m + DISTANCE_MAX ensures WideLength(src, ip, low, high, m) <= length {
      OtherHashIsNoMatch(hash, src, ip, low, high, m);
    }
  }

  /** From one candidate to the next along the chain: nothing in between could have matched. */
  lemma ChainCovers(hash: Hash, src: seq<byte>, start: nat, chain: seq<nat>, ip: nat, low: nat, high: nat, p: nat,
      length: nat)
    requires |chain| == LZ4HC_MAXD && p < ip <= p + DISTANCE_MAX && ip + 4 <= high <= |src|
    requires Linked(hash, src, start, chain, p) && HashAt(hash, src, p) == HashAt(hash, src, ip)
    requires Covered(src, ip, low, high, p, length) && WideLength(src, ip, low, high, p) <= length
    ensures var delta := chain[(p + start) % LZ4HC_MAXD];
      && 1 <= delta <= DISTANCE_MAX && Covered(src, ip, low, high, p - delta, length)
      && (0 <= p - delta && ip <= p - delta + DISTANCE_MAX ==> HashAt(hash, src, p - delta) == HashAt(hash, src, ip))
  {
    hide WideLength;
    var delta := chain[(p + start) % LZ4HC_MAXD];
    forall m: nat | p - delta < m < ip <= m + DISTANCE_MAX ensures WideLength(src, ip, low, high, m) <= length {
      if m < p { OtherHashIsNoMatch(hash, src, ip, low, high, m); }
    }
  }

  /** DELTANEXTU16. */
  function Entry(chain: seq<nat>, index: nat): nat
    requires |chain| == LZ4HC_MAXD
  {
    chain[index % LZ4HC_MAXD]
  }

  /** Chain swapping: of the positions inside the match, the first whose own chain goes back
      furthest, if it goes back more than one. */
  method SwapChain(chain: array<nat>, matchIndex: nat, length: nat) returns (distance: nat, chainPos: nat)
    requires chain.Length == LZ4HC_MAXD && forall i :: 0 <= i < LZ4HC_MAXD ==> chain[i] <= DISTANCE_MAX
    ensures 1 <= distance <= DISTANCE_MAX
    ensures forall i: nat :: matchIndex <= i <= matchIndex + length - MINMATCH ==> Entry(chain[..], i) <= distance
    ensures distance > 1 ==> chainPos <= length - MINMATCH && Entry(chain[..], matchIndex + chainPos) == distance
  {
    distance, chainPos := 1, 0;
    var pos := 0;
    while pos <= length - MINMATCH
      invariant 0 <= pos <= Max(0, length - MINMATCH + 1) && 1 <= distance <= DISTANCE_MAX
      invariant forall i: nat :: matchIndex <= i < matchIndex + pos ==> Entry(chain[..], i) <= distance
      invariant distance > 1 ==> chainPos < pos && Entry(chain[..], matchIndex + chainPos) == distance
    {
      var candidateDist := Entry(chain[..], matchIndex + pos);
      if candidateDist > distance { distance, chainPos := candidateDist, pos; }
      pos := pos + 1;
    }
  }

  datatype RepeatState = rep_untested | rep_not | rep_confirmed

  /** Whether the 4 bytes at `ip` are equal, and if so how far they go on. */
  method TestRepeat(src: seq<byte>, ip: nat, high: nat) returns (repeat: RepeatState, srcPatternLength: nat)
    requires ip + 4 <= high <= |src|
    ensures repeat != rep_untested
    ensures repeat == rep_confirmed ==> 4 <= srcPatternLength && ip + srcPatternLength <= high
    ensures repeat == rep_confirmed ==> AllBytes(src, ip, ip + srcPatternLength, src[ip])
  {
    if !(src[ip] == src[ip + 2] && src[ip + 1] == src[ip + 3] && src[ip] == src[ip + 3]) { return rep_not, 0; }
    var more := CountPattern(src, ip + 4, high, src[ip]);
    return rep_confirmed, more + 4;
  }

  /** What pattern analysis decides: nothing, to stop, or where to go on. */
  datatype PatternJump = NoPattern | StopSearch | JumpTo(matchIndex: nat)

  /** Inside a run of one byte `b`, any stretch as long as the run at `ip` is a match. */
  lemma RunsMatch(src: seq<byte>, ip: nat, high: nat, m: nat, n: nat, b: byte)
    requires m < ip <= m + DISTANCE_MAX && MINMATCH <= n && ip + n <= high <= |src|
    requires AllBytes(src, ip, ip + n, b) && AllBytes(src, m, m + n, b)
    ensures WiderMatch(src, ip, ip, high, ip, m, n)
  {
    forall k | ip <= k < ip + n ensures src[k] == src[k - (ip - m)] {
      assert src[k] == b && src[k - (ip - m)] == b;
    }
  }

  /** The repeated-pattern shortcut at a candidate one position before `matchIndex`, for the
      run of `srcPatternLength` equal bytes `pattern` at `ip`. */
  method FollowPattern(chain: array<nat>, src: seq<byte>, start: nat, ip: nat, low: nat, high: nat, longest: nat,
                       candidate: nat, srcPatternLength: nat, pattern: byte, b: Best)
    returns (jump: PatternJump, b': Best)
    requires chain.Length == LZ4HC_MAXD && forall i :: 0 <= i < LZ4HC_MAXD ==> chain[i] <= DISTANCE_MAX
    requires start <= candidate < start + ip && low <= ip && ip + 4 <= high < |src|
    requires 4 <= srcPatternLength && ip + srcPatternLength <= high && AllBytes(src, ip, ip + srcPatternLength, pattern)
    requires IsBest(b, src, ip, low, high, longest)
    ensures IsBest(b', src, ip, low, high, longest)
    ensures jump.JumpTo? ==> jump.matchIndex <= candidate
  {
    b' := b;
    var matchPtr := candidate - start;
    if src[matchPtr..matchPtr + 4] != [pattern, pattern, pattern, pattern] { return NoPattern, b; }
    assert AllBytes(src, matchPtr, matchPtr + 4, pattern) by {
      assert forall k :: matchPtr <= k < matchPtr + 4 ==> src[k] == src[matchPtr..matchPtr + 4][k - matchPtr];
    }
    var forwardPatternLength := CountPattern(src, matchPtr + 4, high, pattern);
    forwardPatternLength := forwardPatternLength + 4;
    var lowestMatchPtr := if DISTANCE_MAX >= ip then 0 else ip - DISTANCE_MAX;
    var backLength := ReverseCountPattern(src, matchPtr, lowestMatchPtr, pattern);
    var currentSegmentLength := backLength + forwardPatternLength;
    if currentSegmentLength >= srcPatternLength && forwardPatternLength <= srcPatternLength {
      return JumpTo(candidate + forwardPatternLength - srcPatternLength), b;
    }
    var matchIndex := candidate - backLength;
    if low == ip {
      var maxML := Min(currentSegmentLength, srcPatternLength);
      if b.length < maxML {
        var m := matchIndex - start;
        if ip - m > DISTANCE_MAX { return StopSearch, b; }
        RunsMatch(src, ip, high, m, maxML, pattern);
        b' := Best(maxML, m, ip);
      }
      var distToNextPattern := chain[matchIndex % LZ4HC_MAXD];
      if distToNextPattern > matchIndex { return StopSearch, b'; }
      matchIndex := matchIndex - distToNextPattern;
    }
    return JumpTo(matchIndex), b';
  }

  /** Nothing cuts the walk along the chain short. */
  predicate Exhaustive(maxNbAttempts: nat, patternAnalysis: bool, chainSwap: bool, favorDecSpeed: bool) {
    !patternAnalysis && !chainSwap && !favorDecSpeed && maxNbAttempts >= LZ4HC_MAXD
  }

  /** The walk along one hash chain (or a better one inside the best match, or a repeated
      pattern), from the candidate `first`, for at most `maxNbAttempts` candidates. */
  method FollowChain(chain: array<nat>, ghost hash: Hash, src: seq<byte>, start: nat, ip: nat, low: nat, high: nat,
      longest: nat, first: nat, maxNbAttempts: nat, patternAnalysis: bool, chainSwap: bool, favorDecSpeed: bool)
    returns (b: Best)
    requires ip + 3 <= |src| && Links(hash, src, start, ip, chain[..]) && LZ4HC_MAXD <= start
    requires low <= ip && ip + 4 <= high < |src|
    requires 1 <= longest && ip - low < longest && low + longest <= high
    requires IsHead(hash, src, start, ip, HashAt(hash, src, ip), first)
    ensures IsBest(b, src, ip, low, high, longest)
    ensures Exhaustive(maxNbAttempts, patternAnalysis, chainSwap, favorDecSpeed) ==>
      Covered(src, ip, low, high, -1, b.length)
  {
    hide WideLength, WiderMatch, AllBytes, Covered, IsBest, Linked, CommonLength, BackLength;
    var ipIndex := start + ip;
    var lowestMatchIndex := if start + 0x10000 > ipIndex then start else ipIndex - DISTANCE_MAX;
    var nbAttempts, matchChainPos, repeat, srcPatternLength := maxNbAttempts, 0, rep_untested, 0;
    var matchIndex := first;
    b := Best(longest, 0, 0);
    ghost var exhaustive := Exhaustive(maxNbAttempts, patternAnalysis, chainSwap, favorDecSpeed);
    ghost var h := HashAt(hash, src, ip);
    NoMatchYet(src, ip, low, high, longest, b);
    HeadCovers(hash, src, start, ip, low, high, matchIndex, longest);
    while matchIndex >= lowestMatchIndex && nbAttempts > 0
      invariant matchIndex < ipIndex && IsBest(b, src, ip, low, high, longest)
      invariant exhaustive ==> matchChainPos == 0 && nbAttempts > matchIndex - lowestMatchIndex
      invariant exhaustive ==> Covered(src, ip, low, high, matchIndex - start, b.length)
      invariant exhaustive && matchIndex >= lowestMatchIndex ==> HashAt(hash, src, matchIndex - start) == h
      invariant repeat == rep_confirmed ==> 4 <= srcPatternLength && ip + srcPatternLength <= high
      invariant repeat == rep_confirmed ==> AllBytes(src, ip, ip + srcPatternLength, src[ip])
      decreases nbAttempts
    {
      var matchLength, m := 0, matchIndex - start;
      nbAttempts := nbAttempts - 1;
      if !(favorDecSpeed && ipIndex - matchIndex < 8) {
        ghost var before := b.length;
        matchLength, b := TryCandidate(src, ip, low, high, m, longest, b);
        CoveredByMore(src, ip, low, high, m, before, b.length);
      }
      if chainSwap && matchLength == b.length {
        if matchIndex + b.length <= ipIndex {
          var distanceToNextMatch, pos := SwapChain(chain, matchIndex, b.length);
          if distanceToNextMatch > 1 {
            matchChainPos := pos;
            if distanceToNextMatch > matchIndex { break; }
            matchIndex := matchIndex - distanceToNextMatch;
            continue;
          }
        }
      }
      if patternAnalysis && Entry(chain[..], matchIndex) == 1 && matchChainPos == 0 {
        if repeat == rep_untested {
          repeat, srcPatternLength := TestRepeat(src, ip, high);
        }
        if repeat == rep_confirmed && matchIndex - 1 >= start {
          var jump: PatternJump;
          jump, b :=
              FollowPattern(chain, src, start, ip, low, high, longest, matchIndex - 1, srcPatternLength, src[ip], b);
          if jump == StopSearch { break; }
          if jump.JumpTo? {
            matchIndex := jump.matchIndex;
            continue;
          }
        }
      }
      if exhaustive {
        LinkOf(hash, src, start, ip, chain[..], m);
        ChainCovers(hash, src, start, chain[..], ip, low, high, m, b.length);
      }
      matchIndex := matchIndex - Entry(chain[..], matchIndex + matchChainPos);
    }
    if exhaustive { CoveredToTheEnd(src, ip, low, high, matchIndex - start, b.length); }
  }

  /** The search adds every position before `ip` to the index, then follows its chain. What it
      returns is a real match; and when nothing cuts the walk short, no candidate within 64 KB
      gives a longer one. */
  method InsertAndGetWiderMatch(index: Index, src: seq<byte>, ip: nat, low: nat, high: nat, longest: nat,
                                maxNbAttempts: nat, patternAnalysis: bool, chainSwap: bool, favorDecSpeed: bool)
    returns (b: Best)
    requires index.Valid(src) && index.nextToUpdate <= index.start + ip
    requires low <= ip && ip + 4 <= high < |src|
    requires 1 <= longest && ip - low < longest && low + longest <= high
    modifies index`nextToUpdate, index.hashTable, index.chainTable
    ensures index.Valid(src) && index.nextToUpdate == index.start + ip
    ensures IsBest(b, src, ip, low, high, longest)
    ensures Exhaustive(maxNbAttempts, patternAnalysis, chainSwap, favorDecSpeed) ==>
      Covered(src, ip, low, high, -1, b.length)
  {
    index.Insert(src, ip);
    var h := HashAt(index.hash, src, ip);
    HeadOf(index.hash, src, index.start, ip, index.hashTable[..], h);
    b := FollowChain(index.chainTable, index.hash, src, index.start, ip, low, high, longest, index.hashTable[h],
                     maxNbAttempts, patternAnalysis, chainSwap, favorDecSpeed);
  }

  lemma HeadOf(hash: Hash, src: seq<byte>, start: nat, end: nat, heads: seq<nat>, h: nat)
    requires (end == 0 || end + 3 <= |src|) && Heads(hash, src, start, end, heads) && h < LZ4HC_HASHTABLESIZE
    ensures IsHead(hash, src, start, end, h, heads[h]) && heads[h] < start + end
    ensures heads[h] >= start ==> HashAt(hash, src, heads[h] - start) == h
  {
  }

  lemma LinkOf(hash: Hash, src: seq<byte>, start: nat, end: nat, chain: seq<nat>, p: nat)
    requires (end == 0 || end + 3 <= |src|) && Links(hash, src, start, end, chain) && end - LZ4HC_MAXD <= p < end
    ensures Linked(hash, src, start, chain, p)
  {
  }

  lemma NoMatchYet(src: seq<byte>, ip: nat, low: nat, high: nat, longest: nat, b: Best)
    requires b.length == longest && low + longest <= high
    ensures IsBest(b, src, ip, low, high, longest)
  {
  }

  lemma CoveredByMore(src: seq<byte>, ip: nat, low: nat, high: nat, from: int, length: nat, longer: nat)
    requires ip + 4 <= high <= |src| && length <= longer
    ensures Covered(src, ip, low, high, from, length) ==> Covered(src, ip, low, high, from, longer)
  {
  }

  lemma CoveredToTheEnd(src: seq<byte>, ip: nat, low: nat, high: nat, from: int, length: nat)
    requires ip + 4 <= high <= |src| && Covered(src, ip, low, high, from, length)
    requires from < 0 || from + DISTANCE_MAX < ip
    ensures Covered(src, ip, low, high, -1, length)
  {
  }

  /** `n` bytes at `ip`, ending by `high`, repeat the bytes at `m`, within 64 KB. */
  predicate MatchOf(src: seq<byte>, ip: nat, high: nat, m: nat, n: nat) {
    m < ip <= m + DISTANCE_MAX && MINMATCH <= n && ip + n <= high && Repeats(src, ip, ip + n, ip - m)
  }

  /** A match of at least 4 bytes makes its start a candidate of at least that length. */
  lemma MatchIsCandidate(src: seq<byte>, ip: nat, high: nat, m: nat, n: nat)
    requires high <= |src| && MatchOf(src, ip, high, m, n)
    ensures n <= WideLength(src, ip, ip, high, m)
  {
    hide CommonLength;
    assert forall k :: ip <= k < ip + n ==> src[k] == src[k - (ip - m)];
    assert src[m..m + 4] == src[ip..ip + 4];
    CommonLengthAtLeast(src, ip + MINMATCH, ip - m, high, n - MINMATCH);
  }

  /** LZ4HC_InsertAndFindBestMatch. With attempts for a whole window and without pattern
      analysis it finds the true longest match: no position within 64 KB has a longer one. */
  method InsertAndFindBestMatch(index: Index, src: seq<byte>, ip: nat, iLimit: nat, maxNbAttempts: nat,
      patternAnalysis: bool)
    returns (b: Best)
    requires index.Valid(src) && index.nextToUpdate <= index.start + ip && ip + 4 <= iLimit < |src|
    modifies index`nextToUpdate, index.hashTable, index.chainTable
    ensures index.Valid(src) && index.nextToUpdate == index.start + ip
    ensures b.length >= MINMATCH - 1
    ensures b.length >= MINMATCH ==> b.startpos == ip && MatchOf(src, ip, iLimit, b.matchpos, b.length)
    ensures !patternAnalysis && maxNbAttempts >= LZ4HC_MAXD ==>
      forall m: nat, n: nat :: MatchOf(src, ip, iLimit, m, n) ==> n <= b.length
  {
    hide Repeats, WideLength;
    b := InsertAndGetWiderMatch(index, src, ip, ip, iLimit, MINMATCH - 1, maxNbAttempts, patternAnalysis, false, false);
    if !patternAnalysis && maxNbAttempts >= LZ4HC_MAXD {
      forall m: nat, n: nat | MatchOf(src, ip, iLimit, m, n) ensures n <= b.length
      {
        MatchIsCandidate(src, ip, iLimit, m, n);
      }
    }
  }
}
