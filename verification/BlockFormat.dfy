/**
 The LZ4 block format: sequences of (literals, match), their byte encoding, and a
 byte-at-a-time reference decoder.
*/
module BlockFormat {
  import opened Bytes

  const MINMATCH := 4
  const LASTLITERALS := 5
  const MFLIMIT := 12
  const DISTANCE_MAX := 65535
  const RUN_MASK := 15
  const ML_MASK := 15

  // ---------------------------------------------------------------- meaning

  /** Literals to append, then a match of `matchLength` bytes found `offset` bytes back. */
  datatype Sequence = Sequence(literals: seq<byte>, offset: nat, matchLength: nat)

  /** Byte-by-byte, possibly overlapping copy. Offset 0 is not used by any encoder; the
      decoder fills such a match with zeros. */
  function CopyMatch(out: seq<byte>, offset: nat, len: nat): (r: seq<byte>)
    requires offset <= |out|
    ensures |r| == |out| + len
    decreases len
  {
    if len == 0 then out
    else
      var b := if offset == 0 then 0 else out[|out| - offset];
      CopyMatch(out + [b], offset, len - 1)
  }

  /** What the copy leaves: the old bytes, then every byte equal to the one `offset` before. */
  lemma {:induction false} CopyMatchBytes(out: seq<byte>, offset: nat, len: nat)
    requires offset <= |out|
    ensures var r := CopyMatch(out, offset, len);
      && r[..|out|] == out
      && forall k :: |out| <= k < |r| ==> r[k] == if offset == 0 then 0 else r[k - offset]
    decreases len
  {
    if len > 0 {
      var b := if offset == 0 then 0 else out[|out| - offset];
      var longer, r := out + [b], CopyMatch(out + [b], offset, len - 1);
      CopyMatchBytes(longer, offset, len - 1);
      assert r[|out|] == r[..|longer|][|out|] == b;
      assert r[..|out|] == r[..|longer|][..|out|];
      if offset > 0 { assert r[|out| - offset] == r[..|longer|][|out| - offset]; }
    }
  }

  /** `s[lo..hi]` is what a byte-by-byte copy at `offset` leaves there. */
  predicate Repeats(s: seq<byte>, lo: nat, hi: nat, offset: nat) {
    offset <= lo && hi <= |s| &&
    forall k :: lo <= k < hi ==> s[k] == if offset == 0 then 0 else s[k - offset]
  }

  /** A buffer whose tail repeats is the reference copy. */
  lemma RepeatsIsCopyMatch(s: seq<byte>, lo: nat, hi: nat, offset: nat)
    requires lo <= hi && Repeats(s, lo, hi, offset)
    ensures s[..hi] == CopyMatch(s[..lo], offset, hi - lo)
  {
    var r := CopyMatch(s[..lo], offset, hi - lo);
    CopyMatchBytes(s[..lo], offset, hi - lo);
    CopyIsUnique(s[..hi], r, lo, offset, hi);
  }

  lemma {:induction false} CopyIsUnique(a: seq<byte>, b: seq<byte>, lo: nat, offset: nat, n: nat)
    requires lo <= n <= |a| == |b| && a[..lo] == b[..lo]
    requires Repeats(a, lo, |a|, offset) && Repeats(b, lo, |b|, offset)
    ensures a[..n] == b[..n]
  {
    if n > lo {
      CopyIsUnique(a, b, lo, offset, n - 1);
      if offset > 0 {
        assert a[n - 1 - offset] == a[..n - 1][n - 1 - offset];
        assert b[n - 1 - offset] == b[..n - 1][n - 1 - offset];
      }
      assert a[..n] == a[..n - 1] + [a[n - 1]];
      assert b[..n] == b[..n - 1] + [b[n - 1]];
    }
  }

  /** The bytes a list of sequences stands for. */
  function Expand(ss: seq<Sequence>): (out: seq<byte>)
    requires OffsetsInside(ss)
    ensures |out| == ExpandedLength(ss)
  {
    if ss == [] then []
    else
      var s := ss[|ss| - 1];
      CopyMatch(Expand(ss[..|ss| - 1]) + s.literals, s.offset, s.matchLength)
  }

  function ExpandedLength(ss: seq<Sequence>): nat {
    if ss == [] then 0
    else
      var s := ss[|ss| - 1];
      ExpandedLength(ss[..|ss| - 1]) + |s.literals| + s.matchLength
  }

  /** Every match starts inside the bytes already produced. */
  predicate OffsetsInside(ss: seq<Sequence>) {
    ss == [] ||
    var s := ss[|ss| - 1];
    && OffsetsInside(ss[..|ss| - 1])
    && s.offset <= ExpandedLength(ss[..|ss| - 1]) + |s.literals|
  }

  // ---------------------------------------------------------------- encoding

  function Run255(count: nat): (r: seq<byte>)
    ensures |r| == count && forall k :: 0 <= k < count ==> r[k] == 255
  {
    seq(count, _ => 255)
  }

  /** The bytes after a saturated 4-bit length field. */
  function ExtraBytes(n: nat): (r: seq<byte>)
    ensures |r| == n / 255 + 1
  {
    Run255(n / 255) + [n % 255]
  }

  function LengthBytes(n: nat): seq<byte> {
    if n >= 15 then ExtraBytes(n - 15) else []
  }

  function Token(litLen: nat, matchCode: nat): byte {
    Min(litLen, RUN_MASK) * 16 + Min(matchCode, ML_MASK)
  }

  predicate Encodable(s: Sequence) {
    1 <= s.offset <= DISTANCE_MAX && s.matchLength >= MINMATCH
  }

  function EncodedLength(s: Sequence): nat
    requires Encodable(s)
  {
    3 + |LengthBytes(|s.literals|)| + |s.literals| + |LengthBytes(s.matchLength - MINMATCH)|
  }

  function EncodeSequence(s: Sequence): (r: seq<byte>)
    requires Encodable(s)
    ensures |r| == EncodedLength(s)
  {
    [Token(|s.literals|, s.matchLength - MINMATCH)]
    + LengthBytes(|s.literals|) + s.literals
    + [s.offset % 256, s.offset / 256]
    + LengthBytes(s.matchLength - MINMATCH)
  }

  function EncodeLast(last: seq<byte>): seq<byte> {
    [Token(|last|, 0)] + LengthBytes(|last|) + last
  }

  function EncodeAll(ss: seq<Sequence>): seq<byte>
    requires forall s <- ss :: Encodable(s)
  {
    if ss == [] then []
    else EncodeAll(ss[..|ss| - 1]) + EncodeSequence(ss[|ss| - 1])
  }

  function EncodeBlock(ss: seq<Sequence>, last: seq<byte>): seq<byte>
    requires forall s <- ss :: Encodable(s)
  {
    EncodeAll(ss) + EncodeLast(last)
  }

  // ---------------------------------------------------------------- reference decoder

  /** The value of the extra length bytes at `i`, and the index after them. */
  function ReadExtra(src: seq<byte>, i: nat): (r: Option<(nat, nat)>)
    requires i <= |src|
    ensures r.Some? ==> i < r.value.1 <= |src|
    decreases |src| - i
  {
    if i == |src| then None
    else if src[i] == 255 then
      match ReadExtra(src, i + 1)
      case None => None
      case Some((n, j)) => Some((255 + n, j))
    else Some((src[i], i + 1))
  }

  function ReadLength(src: seq<byte>, i: nat, nibble: nat): (r: Option<(nat, nat)>)
    requires i <= |src|
    ensures r.Some? ==> i <= r.value.1 <= |src|
  {
    if nibble < 15 then Some((nibble, i))
    else
      match ReadExtra(src, i)
      case None => None
      case Some((n, j)) => Some((15 + n, j))
  }

  /** What one token announces: literals `src[from..from+litLen]`, then either the end of
      the block or a match, with the next token at `next`. */
  datatype Step =
    | Reject
    | Final(from: nat)
    | Match(from: nat, litLen: nat, offset: nat, matchLength: nat, next: nat)

  function Le16(src: seq<byte>, i: nat): nat
    requires i + 2 <= |src|
  {
    var lo: int, hi: int := src[i], src[i + 1];
    lo + 256 * hi
  }

  function ParseStep(src: seq<byte>, ip: nat): (r: Step)
    requires ip <= |src|
    ensures r.Final? ==> ip < r.from <= |src|
    ensures r.Match? ==> ip < r.from && r.from + r.litLen + 2 <= r.next <= |src|
  {
    if ip == |src| then Reject
    else
      match ReadLength(src, ip + 1, src[ip] / 16)
      case None => Reject
      case Some((litLen, from)) =>
        if from + litLen == |src| then Final(from)
        else if from + litLen + 2 > |src| then Reject
        else
          match ReadLength(src, from + litLen + 2, src[ip] % 16)
          case None => Reject
          case Some((code, next)) => Match(from, litLen, Le16(src, from + litLen), code + MINMATCH, next)
  }

  /** Decodes the rest of `src` from the token at `ip`, after `out` has been produced. */
  function DecodeFrom(src: seq<byte>, ip: nat, out: seq<byte>): Option<seq<byte>>
    requires ip <= |src|
    decreases |src| - ip
  {
    match ParseStep(src, ip)
    case Reject => None
    case Final(from) => Some(out + src[from..])
    case Match(from, litLen, offset, matchLength, next) =>
      var out1 := out + src[from..from + litLen];
      if offset > |out1| then None
      else DecodeFrom(src, next, CopyMatch(out1, offset, matchLength))
  }

  function Decode(src: seq<byte>): Option<seq<byte>> {
    DecodeFrom(src, 0, [])
  }
}
