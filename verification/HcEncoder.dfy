/** LZ4HC_encodeSequence and the closing literals, in the three output modes. */
module HcEncoder {
  import opened Bytes
  import opened BlockFormat
  import opened BlockParse
  import opened BlockWriter
  import opened BlockDecoder

  const OPTIMAL_ML := ML_MASK - 1 + MINMATCH

  datatype Limit = notLimited | limitedOutput | fillOutput

  /** Where sequences must end: fillOutput keeps 5 bytes for the last literals. */
  function SequenceEnd(capacity: nat, limit: Limit): int {
    if limit == fillOutput then capacity - LASTLITERALS else capacity
  }

  predicate HcRoom(n: nat, capacity: nat, limit: Limit) {
    limit == notLimited ==> BoundRoom(n, capacity)
  }

  /** The block so far; with an output limit, every sequence left 5 bytes before `SequenceEnd`. */
  predicate HcBuilding(ss: seq<Sequence>, src: seq<byte>, anchor: nat, dst: array<byte>, op: nat, limit: Limit)
    reads dst
  {
    && Building(ss, src, anchor, dst, op, limit != notLimited)
    && (limit != notLimited && ss != [] ==> op + LASTLITERALS <= SequenceEnd(dst.Length, limit))
  }

  lemma StartBuilding(src: seq<byte>, dst: array<byte>, limit: Limit)
    ensures HcBuilding([], src, 0, dst, 0, limit)
  {
    assert dst[..0] == [];
  }

  lemma LimitedLiteralsFit(oend: nat, token: nat, length: nat)
    requires token + 1 + length / 255 + length + (2 + 1 + LASTLITERALS) <= oend
    ensures token + 1 + |LengthBytes(length)| + Max(8, length + 7) <= oend
  {
  }

  lemma LimitedMatchFits(oend: nat, op: nat, length: nat)
    requires op + length / 255 + (1 + LASTLITERALS) <= oend
    ensures op + |LengthBytes(length)| + LASTLITERALS <= oend
  {
  }

  /** LZ4HC_encodeSequence: literals since the anchor, then the given match. */
  method EncodeSequenceInto(dst: array<byte>, token: nat, src: seq<byte>, anchor: nat, ip: nat, matchLength: nat,
      match_: nat, limit: Limit)
    returns (ok: bool, op: nat)
    requires HcRoom(|src|, dst.Length, limit) && (limit == notLimited ==> Tight(token, anchor))
    requires anchor <= ip && RealMatch(src, ip, match_, matchLength)
    modifies dst
    ensures limit == notLimited ==> ok
    ensures dst[..Min(token, dst.Length)] == old(dst[..Min(token, dst.Length)])
    ensures ok ==> op <= dst.Length && token <= dst.Length
    ensures ok ==>
      if limit == notLimited then Tight(op, ip + matchLength) else op + LASTLITERALS <= SequenceEnd(dst.Length, limit)
    ensures ok ==>
      dst[..op] == old(dst[..Min(token, dst.Length)]) + EncodeSequence(SequenceAt(src, anchor, ip, match_, matchLength))
  {
    hide LengthBytes, EncodeSequence, Repeats;
    ghost var before := dst[..Min(token, dst.Length)];
    var oend := SequenceEnd(dst.Length, limit);
    var length := ip - anchor;
    op := token + 1;
    if limit != notLimited {
      if op + length / 255 + length + (2 + 1 + LASTLITERALS) > oend { return false, op; }
      LimitedLiteralsFit(oend, token, length);
    } else {
      LiteralsFit(|src|, dst.Length, token, anchor, ip);
    }
    op := WriteLiterals(dst, token, src, anchor, ip);
    ghost var start, a := dst[..], op;
    assert start[..token] == before;
    WriteOffset(dst, op, ip - match_);
    ghost var withOffset := dst[..];
    op := op + 2;
    length := matchLength - MINMATCH;
    if limit != notLimited {
      if op + length / 255 + (1 + LASTLITERALS) > oend {
        assert dst[..token] == withOffset[..token] == start[..token];
        return false, op;
      }
      LimitedMatchFits(oend, op, length);
    } else {
      MatchFits(|src|, dst.Length, token, anchor, ip, length);
    }
    op := WriteMatchLength(dst, token, op, length, false);
    SequenceInPlace(start, withOffset, dst[..], token, a, op, SequenceAt(src, anchor, ip, match_, matchLength));
    assert dst[..token] == start[..token];
    ok := true;
  }

  /** The same as a step of the block under construction; on failure nothing before `op0` changed. */
  method Emit(dst: array<byte>, op0: nat, src: seq<byte>, anchor: nat, ip: nat, matchLength: nat, match_: nat,
      limit: Limit, ghost ss: seq<Sequence>)
    returns (ok: bool, op: nat, ghost ss': seq<Sequence>)
    requires HcRoom(|src|, dst.Length, limit) && HcBuilding(ss, src, anchor, dst, op0, limit)
    requires anchor <= ip && RealMatch(src, ip, match_, matchLength)
    modifies dst
    ensures limit == notLimited ==> ok
    ensures ok ==> HcBuilding(ss', src, ip + matchLength, dst, op, limit)
    ensures !ok ==> HcBuilding(ss, src, anchor, dst, op0, limit)
  {
    hide EncodeAll, EncodeSequence, Expand, OffsetsInside, Repeats, Spells;
    ghost var before := dst[..op0];
    ok, op := EncodeSequenceInto(dst, op0, src, anchor, ip, matchLength, match_, limit);
    ss' := ss;
    if ok {
      SequenceAdded(ss, src, anchor, ip, match_, matchLength, dst[..op]);
      ss' := ss + [SequenceAt(src, anchor, ip, match_, matchLength)];
    } else {
      assert dst[..op0] == before;
    }
  }

  /** Cutting the input short, after the last match and 8 more bytes, keeps the block valid. */
  lemma SpellsPrefix(ss: seq<Sequence>, src: seq<byte>, anchor: nat, consumed: nat)
    requires Spells(ss, src, anchor) && anchor <= consumed <= |src|
    requires ss != [] ==> anchor + 8 <= consumed || consumed == |src|
    ensures Spells(ss, src[..consumed], anchor)
  {
    assert src[..consumed][..anchor] == src[..anchor] && src[..|src|] == src;
    if ss != [] { assert Encodable(ss[|ss| - 1]); }
  }

  /** How many literals fillOutput can still place in `space` bytes. */
  function FittingLiterals(space: nat): nat
    requires space >= 1
  {
    var lastRunSize := space - 1;
    lastRunSize - (lastRunSize + 255 - RUN_MASK) / 255
  }

  /** `_last_literals`: everything that is left, or, for fillOutput, as much of it as fits. */
  method EncodeLastLiterals(dst: array<byte>, src: seq<byte>, anchor: nat, op: nat, limit: Limit,
      ghost ss: seq<Sequence>)
    returns (r: nat, consumed: nat)
    requires HcRoom(|src|, dst.Length, limit) && HcBuilding(ss, src, anchor, dst, op, limit)
    requires limit == fillOutput ==> dst.Length >= 1
    modifies dst
    ensures consumed <= |src| && (limit != fillOutput && r > 0 ==> consumed == |src|)
    ensures r == 0 ==> limit == limitedOutput
    ensures r > 0 ==> r <= dst.Length && DecodesTo(dst[..r], src[..consumed])
    ensures r > 0 ==> r <= |src| + |src| / 255 + 16
  {
    hide EncodeAll, Expand, OffsetsInside, DecodesTo, LengthBytes;
    if ss == [] { NothingEncoded(); }
    var lastRunSize := |src| - anchor;
    var litLength := (lastRunSize + 255 - RUN_MASK) / 255;
    var totalSize := 1 + litLength + lastRunSize;
    if limit != notLimited && op + totalSize > dst.Length {
      if limit == limitedOutput { return 0, 0; }
      lastRunSize := FittingLiterals(dst.Length - op);
      FittingLiteralsFit(dst.Length - op, |src| - anchor);
    } else if limit == notLimited {
      LastFits(|src|, dst.Length, op, anchor);
    } else {
      LengthBytesSize(lastRunSize);
    }
    consumed := anchor + lastRunSize;
    SpellsPrefix(ss, src, anchor, consumed);
    r := WriteLast(dst, op, src[..consumed], anchor);
    FinishedBlock(ss, src[..consumed], anchor);
  }

  lemma LengthBytesSize(n: nat)
    ensures |LengthBytes(n)| == (n + 255 - RUN_MASK) / 255
  {
  }

  lemma FittingLiteralsFit(space: nat, wanted: nat)
    requires space >= 1 && 1 + (wanted + 255 - RUN_MASK) / 255 + wanted > space
    ensures 0 <= FittingLiterals(space) <= wanted
    ensures 1 + |LengthBytes(FittingLiterals(space))| + FittingLiterals(space) <= space
    ensures space >= 10 ==> FittingLiterals(space) >= 8
  {
  }
}
