/** LZ4_count: how far two positions of the input agree, eight bytes at a time. */
module MatchCount {
  import opened Bytes
  import opened BlockFormat

  /** How many bytes from `i` on, up to `limit`, repeat the byte `offset` before them. */
  function CommonLength(src: seq<byte>, i: nat, offset: nat, limit: nat): (n: nat)
    requires 0 < offset <= i && limit <= |src|
    ensures i + n <= Max(i, limit)
    decreases limit - i
  {
    if i < limit && src[i] == src[i - offset] then 1 + CommonLength(src, i + 1, offset, limit) else 0
  }

  /** The run agrees, and cannot be made longer. */
  lemma {:induction false} CommonLengthIsLongest(src: seq<byte>, i: nat, offset: nat, limit: nat)
    requires 0 < offset <= i <= limit <= |src|
    ensures var n := CommonLength(src, i, offset, limit);
      Repeats(src, i, i + n, offset) && (i + n < limit ==> src[i + n] != src[i + n - offset])
    decreases limit - i
  {
    if i < limit && src[i] == src[i - offset] {
      CommonLengthIsLongest(src, i + 1, offset, limit);
    }
  }

  lemma {:induction false} CommonLengthAtLeast(src: seq<byte>, i: nat, offset: nat, limit: nat, w: nat)
    requires 0 < offset <= i && i + w <= limit <= |src| && Repeats(src, i, i + w, offset)
    ensures CommonLength(src, i, offset, limit) == w + CommonLength(src, i + w, offset, limit)
    decreases w
  {
    if w > 0 {
      CommonLengthAtLeast(src, i + 1, offset, limit, w - 1);
    }
  }

  /** LZ4_NbCommonBytes on the exclusive or of two words: the first differing byte. */
  function NbCommonBytes(x: seq<byte>, y: seq<byte>): (n: nat)
    requires |x| == |y| && x != y
    ensures n < |x| && x[n] != y[n] && forall k :: 0 <= k < n ==> x[k] == y[k]
  {
    if x[0] != y[0] then 0 else 1 + NbCommonBytes(x[1..], y[1..])
  }

  /** Two words that agree on their first `n` bytes, and on no more. */
  lemma WordsDiffer(src: seq<byte>, i: nat, offset: nat, w: nat, limit: nat, n: nat)
    requires 0 < offset <= i && n < w && i + w <= limit <= |src|
    requires var x, y := src[i..i + w], src[i - offset..i - offset + w]; x[..n] == y[..n] && x[n] != y[n]
    ensures CommonLength(src, i, offset, limit) == n
  {
    var x, y := src[i..i + w], src[i - offset..i - offset + w];
    forall k | i <= k < i + n ensures src[k] == src[k - offset] {
      assert x[..n][k - i] == y[..n][k - i];
    }
    CommonLengthAtLeast(src, i, offset, limit, n);
  }

  /** Comparing two words tells whether the common run is at least a word long. */
  lemma WordsDecide(src: seq<byte>, i: nat, offset: nat, w: nat, limit: nat)
    requires 0 < offset <= i && i + w <= limit <= |src|
    ensures src[i..i + w] == src[i - offset..i - offset + w] <==> CommonLength(src, i, offset, limit) >= w
    ensures CommonLength(src, i, offset, limit) >= w ==>
      CommonLength(src, i, offset, limit) == w + CommonLength(src, i + w, offset, limit)
  {
    var x, y := src[i..i + w], src[i - offset..i - offset + w];
    if x == y {
      forall k | i <= k < i + w ensures src[k] == src[k - offset] { assert x[k - i] == y[k - i]; }
      CommonLengthAtLeast(src, i, offset, limit, w);
    } else {
      var n := NbCommonBytes(x, y);
      WordsDiffer(src, i, offset, w, limit, n);
    }
  }

  method LZ4_count(src: seq<byte>, pIn0: nat, pMatch0: nat, pInLimit: nat) returns (n: nat)
    requires pMatch0 < pIn0 && pInLimit <= |src|
    ensures n == CommonLength(src, pIn0, pIn0 - pMatch0, pInLimit)
  {
    hide CommonLength;
    var pIn, pMatch := pIn0, pMatch0;
    ghost var offset := pIn0 - pMatch0;
    while pIn < pInLimit - 7
      invariant pIn0 <= pIn && pMatch == pIn - offset
      invariant CommonLength(src, pIn0, offset, pInLimit) == pIn - pIn0 + CommonLength(src, pIn, offset, pInLimit)
    {
      var x, y := src[pIn..pIn + 8], src[pMatch..pMatch + 8];
      WordsDecide(src, pIn, offset, 8, pInLimit);
      if x != y {
        var common := NbCommonBytes(x, y);
        WordsDiffer(src, pIn, offset, 8, pInLimit, common);
        return pIn + common - pIn0;
      }
      pIn, pMatch := pIn + 8, pMatch + 8;
    }
    var rest := CountTail(src, pIn, pMatch, pInLimit);
    n := pIn - pIn0 + rest;
  }

  /** The last, at most 7, bytes: a 4-byte, a 2-byte and a 1-byte comparison. */
  method CountTail(src: seq<byte>, pIn0: nat, pMatch0: nat, pInLimit: nat) returns (n: nat)
    requires pMatch0 < pIn0 && pInLimit <= |src| && pIn0 >= pInLimit - 7
    ensures n == CommonLength(src, pIn0, pIn0 - pMatch0, pInLimit)
  {
    var pIn, pMatch := pIn0, pMatch0;
    ghost var offset := pIn0 - pMatch0;
    if pIn < pInLimit - 3 {
      WordsDecide(src, pIn, offset, 4, pInLimit);
      if src[pIn..pIn + 4] == src[pMatch..pMatch + 4] { pIn, pMatch := pIn + 4, pMatch + 4; }
    }
    if pIn < pInLimit - 1 {
      WordsDecide(src, pIn, offset, 2, pInLimit);
      if src[pIn..pIn + 2] == src[pMatch..pMatch + 2] { pIn, pMatch := pIn + 2, pMatch + 2; }
    }
    if pIn < pInLimit && src[pMatch] == src[pIn] { pIn := pIn + 1; }
    n := pIn - pIn0;
  }
}
