/** The stores that lay an encoded block down in the output buffer. */
module BlockWriter {
  import opened Bytes
  import opened BlockFormat
  import opened Memory

  /** A length beyond the token: 255s, then the rest. */
  method WriteExtra(dst: array<byte>, op0: nat, n: nat) returns (op: nat)
    requires op0 + n / 255 + 1 <= dst.Length
    modifies dst
    ensures op == op0 + |ExtraBytes(n)| && dst[op0..op] == ExtraBytes(n)
    ensures forall k :: 0 <= k < dst.Length && !(op0 <= k < op) ==> dst[k] == old(dst[k])
  {
    var len := n;
    op := op0;
    while len >= 255
      invariant op == op0 + (n - len) / 255 && len % 255 == n % 255 && 0 <= len <= n
      invariant forall k :: op0 <= k < op ==> dst[k] == 255
      invariant forall k :: 0 <= k < dst.Length && !(op0 <= k < op) ==> dst[k] == old(dst[k])
    {
      dst[op] := 255;
      op, len := op + 1, len - 255;
    }
    dst[op] := len;
    op := op + 1;
  }

  /** The literal length, in the token and after it. */
  method WriteLiteralLength(dst: array<byte>, token: nat, litLength: nat) returns (op: nat)
    requires token + 1 + |LengthBytes(litLength)| <= dst.Length
    modifies dst
    ensures op == token + 1 + |LengthBytes(litLength)|
    ensures dst[token] == Token(litLength, 0) && dst[token + 1..op] == LengthBytes(litLength)
    ensures forall k :: 0 <= k < token ==> dst[k] == old(dst[k])
  {
    op := token + 1;
    if litLength >= RUN_MASK {
      dst[token] := RUN_MASK * 16;
      op := WriteExtra(dst, op, litLength - RUN_MASK);
    } else {
      dst[token] := litLength * 16;
    }
  }

  /** What was written stays, and `x` follows it. */
  lemma Concatenated(before: seq<byte>, after: seq<byte>, from: nat, op: nat, x: seq<byte>)
    requires |before| == |after| && from <= op && op + |x| <= |after|
    requires forall k :: 0 <= k < op ==> after[k] == before[k]
    requires forall k :: op <= k < op + |x| ==> after[k] == x[k - op]
    ensures after[from..op + |x|] == before[from..op] + x
  {
  }

  /** Literal length, then the literals, copied 8 bytes at a time. */
  method WriteLiterals(dst: array<byte>, token: nat, src: seq<byte>, anchor: nat, ip: nat) returns (op: nat)
    requires anchor <= ip && ip + 8 <= |src|
    requires token + 1 + |LengthBytes(ip - anchor)| + Max(8, ip - anchor + 7) <= dst.Length
    modifies dst
    ensures op == token + 1 + |LengthBytes(ip - anchor)| + (ip - anchor)
    ensures forall k :: 0 <= k < token ==> dst[k] == old(dst[k])
    ensures dst[token] == Token(ip - anchor, 0)
    ensures dst[token + 1..op] == LengthBytes(ip - anchor) + src[anchor..ip]
  {
    hide LengthBytes;
    var litLength := ip - anchor;
    op := WriteLiteralLength(dst, token, litLength);
    ghost var header := dst[..];
    WildCopy8From(dst, op, src, anchor, op + litLength);
    Concatenated(header, dst[..], token + 1, op, src[anchor..ip]);
    op := op + litLength;
  }

  /** LZ4_write32 of 0xFFFFFFFF. */
  method WriteFFFFFFFF(dst: array<byte>, op: nat)
    requires op + 4 <= dst.Length
    modifies dst
    ensures forall k :: 0 <= k < dst.Length ==> dst[k] == if op <= k < op + 4 then 255 else old(dst[k])
  {
    dst[op], dst[op + 1], dst[op + 2], dst[op + 3] := 255, 255, 255, 255;
  }

  /** The match length as lz4.c writes it: four 255s at a time, past the end if need be, then
      the last byte in its place. */
  method WriteExtraByFours(dst: array<byte>, op0: nat, n: nat) returns (op: nat)
    requires op0 + n / 255 + 4 <= dst.Length
    modifies dst
    ensures op == op0 + |ExtraBytes(n)| && dst[op0..op] == ExtraBytes(n)
    ensures forall k :: 0 <= k < op0 ==> dst[k] == old(dst[k])
  {
    var matchCode := n;
    op := op0;
    WriteFFFFFFFF(dst, op);
    while matchCode >= 4 * 255
      invariant 0 <= matchCode <= n && (n - matchCode) % 255 == 0 && op == op0 + (n - matchCode) / 255
      invariant forall k :: op0 <= k < op + 4 ==> dst[k] == 255
      invariant forall k :: 0 <= k < op0 ==> dst[k] == old(dst[k])
    {
      op := op + 4;
      WriteFFFFFFFF(dst, op);
      matchCode := matchCode - 4 * 255;
    }
    op := op + matchCode / 255;
    dst[op] := matchCode % 255;
    op := op + 1;
  }

  /** The match length as lz4hc.c writes it: two 255s at a time. */
  method WriteExtraByTwos(dst: array<byte>, op0: nat, n: nat) returns (op: nat)
    requires op0 + n / 255 + 1 <= dst.Length
    modifies dst
    ensures op == op0 + |ExtraBytes(n)| && dst[op0..op] == ExtraBytes(n)
    ensures forall k :: 0 <= k < op0 ==> dst[k] == old(dst[k])
  {
    var length := n;
    op := op0;
    while length >= 510
      invariant 0 <= length <= n && (n - length) % 255 == 0 && op == op0 + (n - length) / 255
      invariant forall k :: op0 <= k < op ==> dst[k] == 255
      invariant forall k :: 0 <= k < op0 ==> dst[k] == old(dst[k])
    {
      dst[op] := 255;
      dst[op + 1] := 255;
      op, length := op + 2, length - 510;
    }
    if length >= 255 {
      length := length - 255;
      dst[op] := 255;
      op := op + 1;
    }
    dst[op] := length;
    op := op + 1;
  }

  method WriteOffset(dst: array<byte>, op: nat, offset: nat)
    requires op + 2 <= dst.Length && offset <= DISTANCE_MAX
    modifies dst
    ensures dst[op..op + 2] == [offset % 256, offset / 256]
    ensures forall k :: 0 <= k < op ==> dst[k] == old(dst[k])
  {
    dst[op], dst[op + 1] := offset % 256, offset / 256;
  }

  /** The match length; the token gets its low half. */
  method WriteMatchLength(dst: array<byte>, token: nat, op0: nat, matchCode: nat, byFours: bool) returns (op: nat)
    requires token < op0 && op0 + |LengthBytes(matchCode)| + (if byFours then 3 else 0) <= dst.Length
    requires dst[token] % 16 == 0
    modifies dst
    ensures op == op0 + |LengthBytes(matchCode)|
    ensures forall k :: 0 <= k < op0 && k != token ==> dst[k] == old(dst[k])
    ensures dst[token] == old(dst[token]) + Min(matchCode, ML_MASK)
    ensures dst[op0..op] == LengthBytes(matchCode)
  {
    op := op0;
    if matchCode >= ML_MASK {
      dst[token] := dst[token] + ML_MASK;
      if byFours {
        op := WriteExtraByFours(dst, op, matchCode - ML_MASK);
      } else {
        op := WriteExtraByTwos(dst, op, matchCode - ML_MASK);
      }
    } else {
      dst[token] := dst[token] + matchCode;
    }
  }

  /** Token, length bytes, literals, offset and length bytes in their places are one sequence. */
  lemma Assemble(d: seq<byte>, token: nat, a: nat, op: nat, before: seq<byte>, s: Sequence)
    requires Encodable(s) && token < a && a + 2 <= op <= |d|
    requires d[..token] == before && d[token] == Token(|s.literals|, s.matchLength - MINMATCH)
    requires d[token + 1..a] == LengthBytes(|s.literals|) + s.literals
    requires d[a..a + 2] == [s.offset % 256, s.offset / 256]
    requires d[a + 2..op] == LengthBytes(s.matchLength - MINMATCH)
    ensures d[..op] == before + EncodeSequence(s)
  {
    hide LengthBytes, Token;
    Pieces(d, token, a, op, before, [Token(|s.literals|, s.matchLength - MINMATCH)], LengthBytes(|s.literals|),
        s.literals,
           [s.offset % 256, s.offset / 256], LengthBytes(s.matchLength - MINMATCH));
  }

  lemma Pieces(d: seq<byte>, token: nat, a: nat, op: nat, before: seq<byte>,
               t: seq<byte>, l: seq<byte>, x: seq<byte>, o: seq<byte>, m: seq<byte>)
    requires token < a && a + 2 <= op <= |d|
    requires d[..token] == before && [d[token]] == t && d[token + 1..a] == l + x && d[a..a + 2] == o
             && d[a + 2..op] == m
    ensures d[..op] == before + (t + l + x + o + m)
  {
    assert d[..op] == d[..token] + [d[token]] + d[token + 1..a] + d[a..a + 2] + d[a + 2..op];
  }

  /** The stores of one sequence, put together. */
  lemma SequenceInPlace(start: seq<byte>, withOffset: seq<byte>, d: seq<byte>, token: nat, a: nat, op: nat, s: Sequence)
    requires Encodable(s) && |start| == |withOffset| == |d| && token < a && a + 2 <= op <= |d|
    requires start[token] == Token(|s.literals|, 0) && start[token + 1..a] == LengthBytes(|s.literals|) + s.literals
    requires forall k :: 0 <= k < a ==> withOffset[k] == start[k]
    requires withOffset[a..a + 2] == [s.offset % 256, s.offset / 256]
    requires forall k :: 0 <= k < a + 2 && k != token ==> d[k] == withOffset[k]
    requires d[token] == withOffset[token] + Min(s.matchLength - MINMATCH, ML_MASK)
    requires d[a + 2..op] == LengthBytes(s.matchLength - MINMATCH)
    ensures d[..op] == start[..token] + EncodeSequence(s)
  {
    assert d[token + 1..a] == start[token + 1..a];
    assert d[a..a + 2] == withOffset[a..a + 2];
    assert d[..token] == start[..token];
    Assemble(d, token, a, op, start[..token], s);
  }

  /** The closing run of literals. */
  method WriteLast(dst: array<byte>, op0: nat, src: seq<byte>, anchor: nat) returns (op: nat)
    requires anchor <= |src| && op0 + |EncodeLast(src[anchor..])| <= dst.Length
    modifies dst
    ensures op == op0 + |EncodeLast(src[anchor..])|
    ensures dst[..op] == old(dst[..op0]) + EncodeLast(src[anchor..])
  {
    hide LengthBytes, Token;
    var lastRun := |src| - anchor;
    ghost var start := dst[..];
    op := WriteLiteralLength(dst, op0, lastRun);
    ghost var header := dst[..];
    Concatenated(start, header, 0, op0, [Token(lastRun, 0)] + LengthBytes(lastRun));
    CopyFrom(dst, op, src, anchor, lastRun);
    Concatenated(header, dst[..], 0, op, src[anchor..]);
    op := op + lastRun;
    Associate(start[..op0], [Token(lastRun, 0)], LengthBytes(lastRun), src[anchor..]);
  }

  lemma Associate(a: seq<byte>, b: seq<byte>, c: seq<byte>, d: seq<byte>)
    ensures a + (b + c) + d == a + (b + c + d)
  {
  }
}
