/**
 The fast compressor of lz4.c: hash-table search with acceleration, catch-up, and the
 immediate retry at the end of each match; fresh or reused states, without dictionary.
*/
module BlockCompressor {
  import opened Bytes
  import opened BlockFormat
  import opened BlockDecoder
  import opened FastDecoder
  import opened RoundTrip
  import opened BlockParse
  import opened BlockWriter
  import opened MatchCount
  import opened Hashing
  import opened Numbers

  const LZ4_MIN_LENGTH := MFLIMIT + 1
  const LZ4_64K_LIMIT := 0x10000 + (MFLIMIT - 1)
  /** 1 << LZ4_skipTrigger. */
  const SKIP := 64
  const HASH_SLOTS := 8192

  datatype TableType = clearedTable | byU32 | byU16

  /** LZ4_hashPosition reads 4 bytes for a U16 table, 8 for a U32 table. */
  function HashedBytes(tableType: TableType): nat {
    if tableType == byU16 then 4 else 8
  }

  function LZ4_hashPosition(hash: Hash, src: seq<byte>, p: nat, tableType: TableType): nat
    requires p + 8 <= |src|
  {
    hash(src[p..p + HashedBytes(tableType)])
  }

  /** Indices below this fit a table entry, and a U32 one leaves room for adding a distance. */
  function IndexLimit(tableType: TableType): nat {
    if tableType == byU16 then 0x10000 else U32 - DISTANCE_MAX
  }

  /** Every entry is an index below `limit`. */
  predicate Behind(table: seq<nat>, limit: nat) {
    forall h :: 0 <= h < |table| ==> table[h] < limit
  }

  /** LZ4_putIndexOnHash: an entry that would not fit its U16 or U32 slot is an error. */
  method PutIndex(table: array<nat>, idx: nat, h: nat, tableType: TableType)
    requires h < table.Length && idx < IndexLimit(tableType)
    modifies table
    ensures table[..] == old(table[..])[h := idx]
  {
    table[h] := idx;
  }

  lemma FourBytesAgree(src: seq<byte>, ip: nat, match_: nat)
    requires match_ < ip && ip + 4 <= |src| && src[match_..match_ + 4] == src[ip..ip + 4]
    ensures Repeats(src, ip, ip + MINMATCH, ip - match_)
  {
    forall k | ip <= k < ip + 4 ensures src[k] == src[k - (ip - match_)] {
      assert src[ip..ip + 4][k - ip] == src[match_..match_ + 4][k - ip];
    }
  }

  /** The search loop: probes ever more sparsely until a candidate within reach agrees on 4
      bytes, or the last position a match may start at has been passed. */
  method FindMatch(table: array<nat>, hash: Hash, tableType: TableType, src: seq<byte>, startIndex: nat,
                   dictSmall: bool, acceleration: nat, ip0: nat)
    returns (found: bool, ip: nat, match_: nat)
    requires HashesInto(hash, table.Length) && tableType != clearedTable
    requires LZ4_MIN_LENGTH <= |src| && 1 <= ip0 <= |src| - MFLIMIT + 1 && acceleration >= 1
    requires startIndex + |src| <= IndexLimit(tableType) + 11 && (tableType == byU16 ==> |src| < LZ4_64K_LIMIT)
    requires Behind(table[..], startIndex + ip0) && (!dictSmall ==> startIndex == 0)
    modifies table
    ensures found ==> ip0 <= ip && ip + MFLIMIT <= |src| && match_ < ip <= match_ + DISTANCE_MAX
    ensures found ==> Repeats(src, ip, ip + MINMATCH, ip - match_)
    ensures found ==> Behind(table[..], startIndex + ip + 1)
    ensures !found ==> Behind(table[..], startIndex + |src|)
  {
    var mflimitPlusOne := |src| - MFLIMIT + 1;
    var forwardIp, step, searchMatchNb := ip0, 1, acceleration * SKIP;
    var forwardH := LZ4_hashPosition(hash, src, forwardIp, tableType);
    ip, match_ := ip0, 0;
    while true
      invariant ip0 <= forwardIp <= mflimitPlusOne && step >= 1 && searchMatchNb >= 64
      invariant forwardH == LZ4_hashPosition(hash, src, forwardIp, tableType)
      invariant Behind(table[..], startIndex + forwardIp)
      decreases mflimitPlusOne - forwardIp
    {
      var h, current := forwardH, startIndex + forwardIp;
      var matchIndex := table[h];
      ip := forwardIp;
      forwardIp := forwardIp + step;
      step, searchMatchNb := searchMatchNb / SKIP, searchMatchNb + 1;
      if forwardIp > mflimitPlusOne { return false, ip, match_; }
      forwardH := LZ4_hashPosition(hash, src, forwardIp, tableType);
      PutIndex(table, current, h, tableType);
      if dictSmall && matchIndex < startIndex { continue; }
      if tableType != byU16 && matchIndex + DISTANCE_MAX < current { continue; }
      match_ := matchIndex - startIndex;
      if src[match_..match_ + 4] == src[ip..ip + 4] {
        FourBytesAgree(src, ip, match_);
        return true, ip, match_;
      }
    }
  }

  /** Walks a match backwards while the bytes before it agree. */
  method CatchUp(src: seq<byte>, anchor: nat, ip0: nat, match0: nat) returns (ip: nat, match_: nat)
    requires anchor <= ip0 && match0 < ip0 && ip0 + 4 <= |src|
    requires Repeats(src, ip0, ip0 + MINMATCH, ip0 - match0)
    ensures anchor <= ip <= ip0 && match_ < ip && ip - match_ == ip0 - match0
    ensures Repeats(src, ip, ip0 + 4, ip - match_)
  {
    ip, match_ := ip0, match0;
    while ip > anchor && match_ > 0 && src[ip - 1] == src[match_ - 1]
      invariant anchor <= ip <= ip0 && match_ < ip && ip - match_ == ip0 - match0
      invariant Repeats(src, ip, ip0 + 4, ip - match_)
    {
      ip, match_ := ip - 1, match_ - 1;
    }
  }

  // ---------------------------------------------------------------- room in the output

  /** What the output buffer must offer: the full bound, or anything when stores are checked first. */
  predicate RoomFor(n: nat, capacity: nat, limited: bool) {
    !limited ==> BoundRoom(n, capacity)
  }

  /** How a sequence fared: written; refused for lack of room (limitedOutput); or let through by a
      check that misjudged the room it needs, so that stores may pass the end of the buffer. */
  datatype Room = Enough | Full | Misjudged

  /** The limitedOutput check of a match: it divides by 256 where the format divides by 255. */
  predicate Checked(capacity: nat, op: nat, matchCode: nat) {
    op + (1 + LASTLITERALS) + matchCode / 256 <= capacity
  }

  /** The room that the length bytes, and the stores that go a little further, need. */
  predicate HasRoom(capacity: nat, op: nat, matchCode: nat) {
    op + |LengthBytes(matchCode)| + 3 <= capacity
  }

  /** No input shorter than this contains a match long enough to be misjudged. */
  const CHECKED_LIMIT := 134655

  /** Without an output limit there is always room; and only a very long match is misjudged. */
  predicate Judged(room: Room, limited: bool, n: nat) {
    (room == Misjudged ==> limited && n > CHECKED_LIMIT) && (!limited ==> room == Enough)
  }

  lemma ShortMatchFits(matchCode: nat)
    requires matchCode < CHECKED_LIMIT
    ensures |LengthBytes(matchCode)| + 3 <= (1 + LASTLITERALS) + matchCode / 256
  {
    var n := matchCode / 256;
    assert matchCode == 256 * n + matchCode % 256 && n <= 525;
  }

  /** The check suffices for a match length, wherever the match is, exactly if its length bytes are
      at most three more than a 256th of it. */
  lemma CheckSuffices(matchCode: nat)
    ensures (forall capacity: nat, op: nat :: Checked(capacity, op, matchCode) ==> HasRoom(capacity, op, matchCode))
      <==> |LengthBytes(matchCode)| <= 3 + matchCode / 256
  {
    if |LengthBytes(matchCode)| > 3 + matchCode / 256 {
      assert Checked(6 + matchCode / 256, 0, matchCode) && !HasRoom(6 + matchCode / 256, 0, matchCode);
    }
  }

  /** At the limit it does not. */
  lemma CheckIsTooWeak()
    ensures Checked(6 + CHECKED_LIMIT / 256, 0, CHECKED_LIMIT) && !HasRoom(6 + CHECKED_LIMIT / 256, 0, CHECKED_LIMIT)
  {
    assert |LengthBytes(CHECKED_LIMIT)| == 529;
  }

  // ---------------------------------------------------------------- one sequence

  /** Counts the match, known to reach `known` at least, and finds it real. */
  method CountMatch(src: seq<byte>, ip: nat, match_: nat, ghost known: nat) returns (matchCode: nat)
    requires match_ < ip <= match_ + DISTANCE_MAX && ip + MFLIMIT <= |src|
    requires ip + MINMATCH <= known <= |src| - LASTLITERALS && Repeats(src, ip, known, ip - match_)
    ensures RealMatch(src, ip, match_, matchCode + MINMATCH) && known <= ip + MINMATCH + matchCode
  {
    matchCode := LZ4_count(src, ip + MINMATCH, match_ + MINMATCH, |src| - LASTLITERALS);
    CommonLengthIsLongest(src, ip + MINMATCH, ip - match_, |src| - LASTLITERALS);
    CommonLengthAtLeast(src, ip + MINMATCH, ip - match_, |src| - LASTLITERALS, known - ip - MINMATCH);
  }

  /** From the literals on: the offset, then the match as far as it goes. `token` still holds
      only the literal length. */
  method EncodeMatch(dst: array<byte>, token: nat, op0: nat, src: seq<byte>, ip0: nat, match_: nat, limited: bool,
                     ghost literals: seq<byte>, ghost known: nat)
    returns (room: Room, op: nat, ip: nat)
    requires RoomFor(|src|, dst.Length, limited)
    requires match_ < ip0 <= match_ + DISTANCE_MAX && ip0 + MFLIMIT <= |src| && |literals| <= ip0
    requires ip0 + MINMATCH <= known <= |src| - LASTLITERALS && Repeats(src, ip0, known, ip0 - match_)
    requires op0 == token + 1 + |LengthBytes(|literals|)| + |literals| && op0 + 2 <= dst.Length
    requires !limited ==> Tight(token, ip0 - |literals|)
    requires dst[token] == Token(|literals|, 0) && dst[token + 1..op0] == LengthBytes(|literals|) + literals
    modifies dst
    ensures Judged(room, limited, |src|)
    ensures room == Enough ==> known <= ip && RealMatch(src, ip0, match_, ip - ip0)
    ensures room == Enough ==> op <= dst.Length && (if limited then op + 3 <= dst.Length else Tight(op, ip))
    ensures room == Enough ==>
      dst[..op] == old(dst[..token]) + EncodeSequence(Sequence(literals, ip0 - match_, ip - ip0))
  {
    hide LengthBytes, EncodeSequence, Repeats, RealMatch;
    ghost var start := dst[..];
    WriteOffset(dst, op0, ip0 - match_);
    ghost var withOffset := dst[..];
    op := op0 + 2;
    var matchCode := CountMatch(src, ip0, match_, known);
    ip := ip0 + matchCode + MINMATCH;
    if limited {
      if !Checked(dst.Length, op, matchCode) { return Full, op, ip; }
      if matchCode < CHECKED_LIMIT { ShortMatchFits(matchCode); }
      if !HasRoom(dst.Length, op, matchCode) { return Misjudged, op, ip; }
    } else {
      MatchFits(|src|, dst.Length, token, ip0 - |literals|, ip0, matchCode);
    }
    op := WriteMatchLength(dst, token, op, matchCode, true);
    SequenceInPlace(start, withOffset, dst[..], token, op0, op, Sequence(literals, ip0 - match_, matchCode + MINMATCH));
    room := Enough;
  }

  /** Token and literals before a match found by searching. */
  method EncodeLiterals(dst: array<byte>, token: nat, src: seq<byte>, anchor: nat, ip: nat, limited: bool)
    returns (room: Room, op: nat)
    requires RoomFor(|src|, dst.Length, limited) && anchor <= ip && ip + MFLIMIT <= |src|
    requires !limited ==> Tight(token, anchor)
    modifies dst
    ensures room != Misjudged && (!limited ==> room == Enough)
    ensures room == Enough ==> op == token + 1 + |LengthBytes(ip - anchor)| + (ip - anchor) && op + 2 <= dst.Length
    ensures room == Enough ==> dst[..token] == old(dst[..token])
    ensures room == Enough ==>
      dst[token] == Token(ip - anchor, 0) && dst[token + 1..op] == LengthBytes(ip - anchor) + src[anchor..ip]
  {
    var litLength := ip - anchor;
    op := token + 1;
    if limited && op + litLength + (2 + 1 + LASTLITERALS) + litLength / 255 > dst.Length { return Full, op; }
    if !limited { LiteralsFit(|src|, dst.Length, token, anchor, ip); }
    op := WriteLiterals(dst, token, src, anchor, ip);
    room := Enough;
  }

  /** "Test next position": registers `ip - 2` and `ip`, and looks for a match right at `ip`. */
  method TestNextPosition(table: array<nat>, hash: Hash, tableType: TableType, src: seq<byte>, startIndex: nat,
      dictSmall: bool, ip: nat)
    returns (hit: bool, match_: nat)
    requires HashesInto(hash, table.Length) && tableType != clearedTable
    requires 2 <= ip && ip + MFLIMIT <= |src|
    requires startIndex + |src| <= IndexLimit(tableType) + 11 && (tableType == byU16 ==> |src| < LZ4_64K_LIMIT)
    requires Behind(table[..], startIndex + ip) && (!dictSmall ==> startIndex == 0)
    modifies table
    ensures Behind(table[..], startIndex + ip + 1)
    ensures hit ==> match_ < ip <= match_ + DISTANCE_MAX && Repeats(src, ip, ip + MINMATCH, ip - match_)
  {
    PutIndex(table, startIndex + ip - 2, LZ4_hashPosition(hash, src, ip - 2, tableType), tableType);
    var h, current := LZ4_hashPosition(hash, src, ip, tableType), startIndex + ip;
    var matchIndex := table[h];
    PutIndex(table, current, h, tableType);
    hit, match_ := false, 0;
    if (dictSmall ==> matchIndex >= startIndex) && (tableType != byU16 ==> matchIndex + DISTANCE_MAX >= current) {
      match_ := matchIndex - startIndex;
      hit := src[match_..match_ + 4] == src[ip..ip + 4];
      if hit { FourBytesAgree(src, ip, match_); }
    }
  }

  /** A found match, after catching up: literals, then the match itself. */
  method EncodeFound(dst: array<byte>, src: seq<byte>, anchor: nat, op0: nat, ip0: nat, match_: nat, limited: bool,
      ghost known: nat)
    returns (room: Room, op: nat, ip: nat)
    requires RoomFor(|src|, dst.Length, limited) && (!limited ==> Tight(op0, anchor)) && op0 <= dst.Length
    requires anchor <= ip0 && match_ < ip0 <= match_ + DISTANCE_MAX && ip0 + MFLIMIT <= |src|
    requires ip0 + MINMATCH <= known <= |src| - LASTLITERALS && Repeats(src, ip0, known, ip0 - match_)
    modifies dst
    ensures Judged(room, limited, |src|)
    ensures room == Enough ==> known <= ip && RealMatch(src, ip0, match_, ip - ip0)
    ensures room == Enough ==> op <= dst.Length && (if limited then op + 3 <= dst.Length else Tight(op, ip))
    ensures room == Enough ==>
      dst[..op] == old(dst[..op0]) + EncodeSequence(SequenceAt(src, anchor, ip0, match_, ip - ip0))
  {
    hide LengthBytes, EncodeSequence, Repeats, Tight, RoomFor, Token;
    ghost var literals := src[anchor..ip0];
    room, op := EncodeLiterals(dst, op0, src, anchor, ip0, limited);
    if room != Enough { return room, op, ip0; }
    room, op, ip := EncodeMatch(dst, op0, op, src, ip0, match_, limited, literals, known);
  }

  /** `_next_match` reached without searching: no literals, so the token alone precedes the match. */
  method EncodeNext(dst: array<byte>, src: seq<byte>, op0: nat, ip0: nat, match_: nat, limited: bool)
    returns (room: Room, op: nat, ip: nat)
    requires RoomFor(|src|, dst.Length, limited)
    requires if limited then op0 + 3 <= dst.Length else Tight(op0, ip0)
    requires match_ < ip0 <= match_ + DISTANCE_MAX && ip0 + MFLIMIT <= |src|
    requires Repeats(src, ip0, ip0 + MINMATCH, ip0 - match_)
    modifies dst
    ensures Judged(room, limited, |src|)
    ensures room == Enough ==> ip0 + MINMATCH <= ip && RealMatch(src, ip0, match_, ip - ip0)
    ensures room == Enough ==> op <= dst.Length && (if limited then op + 3 <= dst.Length else Tight(op, ip))
    ensures room == Enough ==>
      dst[..op] == old(dst[..op0]) + EncodeSequence(SequenceAt(src, ip0, ip0, match_, ip - ip0))
  {
    ghost var before := dst[..op0];
    dst[op0] := 0;
    assert dst[..op0] == before;
    assert dst[op0 + 1..op0 + 1] == LengthBytes(0) + [];
    room, op, ip := EncodeMatch(dst, op0, op0 + 1, src, ip0, match_, limited, [], ip0 + MINMATCH);
    assert src[ip0..ip0] == [];
  }

  /** `_last_literals`. */
  method EncodeLastLiterals(dst: array<byte>, src: seq<byte>, anchor: nat, op: nat, limited: bool,
      ghost ss: seq<Sequence>) returns (r: nat)
    requires RoomFor(|src|, dst.Length, limited) && Building(ss, src, anchor, dst, op, limited)
    modifies dst
    ensures r == 0 ==> limited
    ensures r > 0 ==> r <= dst.Length && dst[..r] == EncodeBlock(ss, src[anchor..])
  {
    var lastRun := |src| - anchor;
    if limited && op + lastRun + 1 + (lastRun + 255 - RUN_MASK) / 255 > dst.Length { return 0; }
    if !limited { LastFits(|src|, dst.Length, op, anchor); }
    r := WriteLast(dst, op, src, anchor);
  }

  // ---------------------------------------------------------------- the whole input

  /** One turn of the main loop up to the end of a match: search unless a match is at hand,
      then encode. */
  method NextSequence(table: array<nat>, hash: Hash, tableType: TableType, src: seq<byte>, dst: array<byte>,
      startIndex: nat, dictSmall: bool, acceleration: nat, limited: bool, anchor: nat, op0: nat, ip0: nat,
      atHand: bool, match0: nat, ghost ss: seq<Sequence>)
    returns (found: bool, room: Room, op: nat, ip: nat, ghost ss': seq<Sequence>)
    requires HashesInto(hash, table.Length) && tableType != clearedTable && acceleration >= 1
    requires LZ4_MIN_LENGTH <= |src| && RoomFor(|src|, dst.Length, limited)
             && Building(ss, src, anchor, dst, op0, limited)
    requires startIndex + |src| <= IndexLimit(tableType) + 11 && (tableType == byU16 ==> |src| < LZ4_64K_LIMIT)
    requires !dictSmall ==> startIndex == 0
    requires anchor <= ip0 && 1 <= ip0 <= |src| - MFLIMIT + 1
    requires !atHand ==> Behind(table[..], startIndex + ip0)
    requires atHand ==> Behind(table[..], startIndex + ip0 + 1) && anchor == ip0 && ip0 + MFLIMIT <= |src|
    requires atHand ==> match0 < ip0 <= match0 + DISTANCE_MAX && Repeats(src, ip0, ip0 + MINMATCH, ip0 - match0)
    requires atHand && limited ==> op0 + 3 <= dst.Length
    modifies table, dst
    ensures !found ==> room == Enough && op == op0 && ss' == ss && Building(ss, src, anchor, dst, op0, limited)
    ensures !found || room != Enough ==> Behind(table[..], startIndex + |src|)
    ensures Judged(room, limited, |src|)
    ensures found && room == Enough ==>
      ip0 + MINMATCH <= ip <= |src| && Building(ss', src, ip, dst, op, limited) && Behind(table[..], startIndex + ip)
    ensures found && room == Enough && limited ==> op + 3 <= dst.Length
  {
    hide EncodeAll, EncodeSequence, Expand, OffsetsInside, Repeats, LengthBytes;
    var start, match_ := ip0, match0;
    found, room, op, ip, ss' := true, Enough, op0, ip0, ss;
    ghost var known := ip0 + MINMATCH;
    if atHand {
      room, op, ip := EncodeNext(dst, src, op0, ip0, match0, limited);
    } else {
      found, start, match_ := FindMatch(table, hash, tableType, src, startIndex, dictSmall, acceleration, ip0);
      if !found { return false, Enough, op0, ip0, ss; }
      known := start + MINMATCH;
      start, match_ := CatchUp(src, anchor, start, match_);
      room, op, ip := EncodeFound(dst, src, anchor, op0, start, match_, limited, known);
    }
    if room == Enough {
      SequenceAdded(ss, src, anchor, start, match_, ip - start, dst[..op]);
      ss' := ss + [SequenceAt(src, anchor, start, match_, ip - start)];
    }
  }

  /** The main loop: all the sequences of the block. */
  method CompressSequences(table: array<nat>, hash: Hash, tableType: TableType, src: seq<byte>, dst: array<byte>,
      startIndex: nat, dictSmall: bool, acceleration: nat, limited: bool)
    returns (room: Room, anchor: nat, op: nat, ghost ss: seq<Sequence>)
    requires HashesInto(hash, table.Length) && tableType != clearedTable && acceleration >= 1
    requires LZ4_MIN_LENGTH <= |src| && RoomFor(|src|, dst.Length, limited) && Building([], src, 0, dst, 0, limited)
    requires startIndex + |src| <= IndexLimit(tableType) + 11 && (tableType == byU16 ==> |src| < LZ4_64K_LIMIT)
    requires Behind(table[..], startIndex + 1) && (!dictSmall ==> startIndex == 0)
    modifies table, dst
    ensures Behind(table[..], startIndex + |src|) && Judged(room, limited, |src|)
    ensures room == Enough ==> Building(ss, src, anchor, dst, op, limited)
  {
    hide EncodeAll, EncodeBlock, Expand, OffsetsInside, Repeats, RoomFor, Spells, HashesInto;
    anchor, op, ss := 0, 0, [];
    var ip: nat, atHand, match_: nat := 1, false, 0;
    while true
      invariant Building(ss, src, anchor, dst, op, limited)
      invariant anchor <= ip && 1 <= ip <= |src| - MFLIMIT + 1
      invariant !atHand ==> Behind(table[..], startIndex + ip)
      invariant atHand ==> Behind(table[..], startIndex + ip + 1) && anchor == ip && ip + MFLIMIT <= |src|
      invariant atHand ==> match_ < ip <= match_ + DISTANCE_MAX && Repeats(src, ip, ip + MINMATCH, ip - match_)
      invariant atHand && limited ==> op + 3 <= dst.Length
      decreases |src| - ip
    {
      var found, end;
      found, room, op, end, ss := NextSequence(table, hash, tableType, src, dst, startIndex, dictSmall, acceleration,
                                               limited, anchor, op, ip, atHand, match_, ss);
      if room != Enough || !found { return; }
      anchor := end;
      if end >= |src| - MFLIMIT + 1 { return; }
      ip := end;
      atHand, match_ := TestNextPosition(table, hash, tableType, src, startIndex, dictSmall, ip);
      if !atHand { ip := ip + 1; }
    }
  }

  /** LZ4_compress_generic without dictionary. `startIndex` is the table index of the first
      input byte; smaller entries, left by earlier calls, are skipped under `dictSmall`. */
  method CompressGeneric(table: array<nat>, hash: Hash, tableType: TableType, src: seq<byte>, dst: array<byte>,
                         startIndex: nat, dictSmall: bool, acceleration: nat, limited: bool)
    returns (r: nat, misjudged: bool)
    requires HashesInto(hash, table.Length) && tableType != clearedTable && acceleration >= 1
    requires |src| <= MAX_INPUT_SIZE && RoomFor(|src|, dst.Length, limited)
    requires startIndex + |src| <= IndexLimit(tableType) + 11 && (tableType == byU16 ==> |src| < LZ4_64K_LIMIT)
    requires Behind(table[..], Max(startIndex, 1)) && (!dictSmall ==> startIndex == 0)
    modifies table, dst
    ensures Behind(table[..], Max(startIndex + |src|, 1))
    ensures misjudged ==> limited && |src| > CHECKED_LIMIT && r == 0
    ensures r == 0 ==> limited
    ensures r > 0 ==> r <= dst.Length && r <= |src| + |src| / 255 + 16 && DecodesTo(dst[..r], src)
  {
    hide EncodeAll, EncodeBlock, Expand, OffsetsInside, Repeats, DecodesTo;
    misjudged := false;
    var anchor: nat, op: nat := 0, 0;
    ghost var ss: seq<Sequence> := [];
    NothingYet(src);
    assert dst[..op] == EncodeAll(ss) by { NothingEncoded(); }
    if |src| >= LZ4_MIN_LENGTH {
      PutIndex(table, startIndex, LZ4_hashPosition(hash, src, 0, tableType), tableType);
      var room;
      room, anchor, op, ss := CompressSequences(table, hash, tableType, src, dst, startIndex, dictSmall, acceleration,
                                                limited);
      if room != Enough { return 0, room == Misjudged; }
    }
    r := EncodeLastLiterals(dst, src, anchor, op, limited, ss);
    FinishedBlock(ss, src, anchor);
  }

  // ---------------------------------------------------------------- states and entry points

  /** LZ4_hash4 on 4 bytes, for U16 tables; LZ4_hash5 on the low 5 of 8 bytes otherwise. */
  function LZ4_hash(tableType: TableType, s: seq<byte>): (h: nat)
    ensures h < HASH_SLOTS
  {
    if tableType == byU16 then ReadLE(s) * 2654435761 % U32 / 0x8_0000
    else ReadLE(s) * 0x100_0000 % 0x1_0000_0000_0000_0000 * 889523592379 % 0x1_0000_0000_0000_0000 / 0x10_0000_0000_0000
  }

  function HashFor(tableType: TableType): Hash {
    s => LZ4_hash(tableType, s)
  }

  /** LZ4_stream_t_internal, without the dictionary fields. One array serves both entry widths:
      8192 U16 or, of them, 4096 U32. */
  class Stream {
    const hashTable: array<nat>
    var currentOffset: nat
    var tableType: TableType
    var dictSize: nat

    /** A used table only holds indices behind the current offset; an unused one is all zero. */
    ghost predicate Valid()
      reads this, hashTable
    {
      && hashTable.Length == HASH_SLOTS
      && Behind(hashTable[..], Max(currentOffset, 1))
      && (tableType == clearedTable ==> currentOffset == 0)
    }

    /** LZ4_initStream. */
    constructor ()
      ensures Valid() && currentOffset == 0 && tableType == clearedTable && fresh(hashTable)
    {
      hashTable := new nat[HASH_SLOTS](_ => 0);
      currentOffset, tableType, dictSize := 0, clearedTable, 0;
    }

    /** LZ4_prepareTable: keeps the table only where its entries stay below every new index and
        new indices fit its width. */
    method PrepareTable(inputSize: nat, wanted: TableType)
      requires Valid() && wanted != clearedTable
      modifies this, hashTable
      ensures Valid() && dictSize == 0
      ensures wanted == byU16 && currentOffset > 0 ==> currentOffset + inputSize < 0xFFFF
      ensures wanted == byU32 && inputSize >= 4096 ==> currentOffset == 0
    {
      if tableType != clearedTable {
        if tableType != wanted
           || (wanted == byU16 && currentOffset + inputSize >= 0xFFFF)
           || (wanted == byU32 && currentOffset > 0x4000_0000)
           || inputSize >= 4096
        {
          forall h | 0 <= h < hashTable.Length { hashTable[h] := 0; }
          currentOffset, tableType := 0, clearedTable;
        }
      }
      if currentOffset != 0 && wanted == byU32 {
        currentOffset := currentOffset + 0x10000;
      }
      dictSize := 0;
    }

    /** LZ4_compress_fast_extState_fastReset: compression with a state that earlier calls may
        have filled. Nothing an earlier call left behind reaches the output. Where the check of a
        match was misjudged, nothing is promised. */
    method CompressFastReset(src: seq<byte>, dst: array<byte>, acceleration: int) returns (r: nat, misjudged: bool)
      requires Valid()
      modifies this, hashTable, dst
      ensures Valid()
      ensures misjudged ==> |src| > CHECKED_LIMIT && dst.Length < CompressBound(|src|) && r == 0
      ensures r == 0 ==> |src| > MAX_INPUT_SIZE || dst.Length < CompressBound(|src|)
      ensures r > 0 ==> r <= dst.Length && r <= CompressBound(|src|) && DecodesTo(dst[..r], src)
    {
      var limited := dst.Length < CompressBound(|src|);
      var wanted := if |src| < LZ4_64K_LIMIT then byU16 else byU32;
      PrepareTable(|src|, wanted);
      if |src| > MAX_INPUT_SIZE { return 0, false; }
      var startIndex := currentOffset;
      dictSize := dictSize + |src|;
      currentOffset := currentOffset + |src|;
      tableType := wanted;
      r, misjudged := CompressGeneric(hashTable, HashFor(wanted), wanted, src, dst, startIndex, startIndex != 0,
                                      if acceleration < 1 then 1 else acceleration, limited);
    }
  }

  /** LZ4_compress_fast: the same on a fresh state. */
  method LZ4_compress_fast(src: seq<byte>, dst: array<byte>, acceleration: int) returns (r: nat, misjudged: bool)
    modifies dst
    ensures misjudged ==> |src| > CHECKED_LIMIT && dst.Length < CompressBound(|src|) && r == 0
    ensures r == 0 ==> |src| > MAX_INPUT_SIZE || dst.Length < CompressBound(|src|)
    ensures r > 0 ==> r <= dst.Length && r <= CompressBound(|src|) && DecodesTo(dst[..r], src)
  {
    var stream := new Stream();
    r, misjudged := stream.CompressFastReset(src, dst, acceleration);
  }

  /** What the application does with a frame of an animation: compress it with room for the
      worst case, store the result, and later decompress it into a buffer of exactly its size. */
  method StoreAndLoad(src: seq<byte>, LZ4_FAST_DEC_LOOP: bool) returns (stored: seq<byte>, loaded: seq<byte>)
    requires |src| <= MAX_INPUT_SIZE
    ensures loaded == src && |stored| <= CompressBound(|src|)
  {
    var compressed := new byte[CompressBound(|src|)](_ => 0);
    var size, _ := LZ4_compress_fast(src, compressed, 1);
    stored := compressed[..size];
    var buffer := new byte[|src|](_ => 0);
    assert Decompressed(stored, buffer[..], LZ4_FAST_DEC_LOOP) == Some(src);
    var r := LZ4_decompress_safe(stored, buffer, LZ4_FAST_DEC_LOOP);
    loaded := buffer[..r];
  }
}
