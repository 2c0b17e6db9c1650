/**
 xxhash.c: the one-shot and the streaming 32-bit hash, both against one definition by whole
 16-byte stripes, then whole words, then bytes.
*/
module Xxh32 {
  import opened Bytes
  import opened Numbers

  const PRIME32_1: bv32 := 2654435761
  const PRIME32_2: bv32 := 2246822519
  const PRIME32_3: bv32 := 3266489917
  const PRIME32_4: bv32 := 668265263
  const PRIME32_5: bv32 := 374761393


  function Rotl32(x: bv32, r: nat): bv32
    requires 0 < r < 32
  {
    (x << r) | (x >> (32 - r))
  }

  function Round(seed: bv32, input: bv32): bv32 {
    Rotl32(seed + input * PRIME32_2, 13) * PRIME32_1
  }

  function Avalanche(h: bv32): bv32 {
    var h := (h ^ (h >> 15)) * PRIME32_2;
    var h := (h ^ (h >> 13)) * PRIME32_3;
    h ^ (h >> 16)
  }

  /** XXH_readLE32. */
  function ReadLE32(p: seq<byte>): bv32
    requires |p| == 4
  {
    (p[0] as bv8 as bv32) | ((p[1] as bv8 as bv32) << 8) | ((p[2] as bv8 as bv32) << 16) | ((p[3] as bv8 as bv32) << 24)
  }

  function ByteOf(h: bv32): byte {
    ((h & 0xff) as bv8) as int as byte
  }

  /** A hash as 4 little-endian bytes. */
  function WriteLE32(h: bv32): (p: seq<byte>)
    ensures |p| == 4
  {
    [ByteOf(h), ByteOf(h >> 8), ByteOf(h >> 16), ByteOf(h >> 24)]
  }

  lemma EightBits(x: bv8)
    ensures (x as int) as bv8 == x
  {
  }

  lemma LowBits(h: bv32)
    ensures ((h & 0xff) as bv8) as bv32 == h & 0xff
  {
  }

  lemma ByteIsLow(h: bv32)
    ensures (ByteOf(h) as bv8) as bv32 == h & 0xff
  {
    EightBits((h & 0xff) as bv8);
    LowBits(h);
  }

  lemma FourBytes(h: bv32)
    ensures (h & 0xff) | (((h >> 8) & 0xff) << 8) | (((h >> 16) & 0xff) << 16) | (((h >> 24) & 0xff) << 24) == h
  {
  }

  lemma HashRoundTrip(h: bv32)
    ensures ReadLE32(WriteLE32(h)) == h
  {
    hide ByteOf;
    ByteIsLow(h);
    ByteIsLow(h >> 8);
    ByteIsLow(h >> 16);
    ByteIsLow(h >> 24);
    FourBytes(h);
  }

  // ---------------------------------------------------------------- the definition

  datatype Lanes = Lanes(v1: bv32, v2: bv32, v3: bv32, v4: bv32) {
    function Converge(): bv32 {
      Rotl32(v1, 1) + Rotl32(v2, 7) + Rotl32(v3, 12) + Rotl32(v4, 18)
    }
  }

  function Init(seed: bv32): Lanes {
    Lanes(seed + PRIME32_1 + PRIME32_2, seed + PRIME32_2, seed, seed - PRIME32_1)
  }

  function Stripe(l: Lanes, p: seq<byte>): Lanes
    requires |p| == 16
  {
    Lanes(Round(l.v1, ReadLE32(p[..4])), Round(l.v2, ReadLE32(p[4..8])), Round(l.v3, ReadLE32(p[8..12])),
        Round(l.v4, ReadLE32(p[12..])))
  }

  /** The lanes after the first `n` stripes of `data`. */
  function Stripes(seed: bv32, data: seq<byte>, n: nat): Lanes
    requires 16 * n <= |data|
  {
    if n == 0 then Init(seed) else Stripe(Stripes(seed, data, n - 1), data[16 * (n - 1)..16 * n])
  }

  function Process4(h: bv32, p: seq<byte>): bv32
    requires |p| == 4
  {
    Rotl32(h + ReadLE32(p) * PRIME32_3, 17) * PRIME32_4
  }

  function Process1(h: bv32, b: byte): bv32 {
    Rotl32(h + (b as bv8 as bv32) * PRIME32_5, 11) * PRIME32_1
  }

  /** All whole words, then all bytes, then the final mix. */
  function Tail(h: bv32, p: seq<byte>): bv32
    decreases |p|
  {
    if |p| >= 4 then Tail(Process4(h, p[..4]), p[4..])
    else if |p| > 0 then Tail(Process1(h, p[0]), p[1..])
    else Avalanche(h)
  }

  function NoStripe(seed: bv32): bv32 {
    seed + PRIME32_5
  }

  /** Adds the low 32 bits of a length. */
  function AddLength(h: bv32, len: nat): bv32 {
    AddWord(h, len % U32)
  }

  function AddWord(h: bv32, n: nat): bv32
    requires n < U32
  {
    h + n as bv32
  }

  lemma AddLowLength(h: bv32, len: nat)
    ensures AddLength(h, len % U32) == AddLength(h, len)
  {
    hide AddWord;
  }

  /** The hash of `data`. */
  function Hash(seed: bv32, data: seq<byte>): bv32 {
    Tail(Start(seed, data), data[16 * (|data| / 16)..])
  }

  /** What both forms compute before the tail. */
  function Start(seed: bv32, data: seq<byte>): bv32 {
    AddLength(if |data| >= 16 then Stripes(seed, data, |data| / 16).Converge() else NoStripe(seed), |data|)
  }

  /** What follows does not change earlier stripes. */
  lemma {:induction false} StripesPrefix(seed: bv32, data: seq<byte>, more: seq<byte>, n: nat)
    requires 16 * n <= |data|
    ensures Stripes(seed, data + more, n) == Stripes(seed, data, n)
  {
    hide Stripe, Init;
    if n > 0 {
      StripesPrefix(seed, data, more, n - 1);
      assert (data + more)[16 * (n - 1)..16 * n] == data[16 * (n - 1)..16 * n];
    }
  }

  // ---------------------------------------------------------------- finalize

  /** PROCESS4, on the word at `i`. */
  method PROCESS4(h: bv32, p: seq<byte>, i: nat, ghost len: nat) returns (h': bv32, i': nat)
    requires i + 4 <= len <= |p|
    ensures i' == i + 4 && Tail(h', p[i'..len]) == Tail(h, p[i..len])
  {
    hide Process4;
    h', i' := Process4(h, p[i..i + 4]), i + 4;
    assert p[i..len][..4] == p[i..i + 4] && p[i..len][4..] == p[i'..len];
  }

  /** PROCESS1, on the byte at `i`; only once no whole word is left. */
  method PROCESS1(h: bv32, p: seq<byte>, i: nat, ghost len: nat) returns (h': bv32, i': nat)
    requires i < len <= |p| && len - i < 4
    ensures i' == i + 1 && Tail(h', p[i'..len]) == Tail(h, p[i..len])
  {
    hide Process1;
    h', i' := Process1(h, p[i]), i + 1;
    assert p[i..len][1..] == p[i'..len];
  }

  lemma TailDone(h: bv32, p: seq<byte>, len: nat)
    requires len <= |p|
    ensures Tail(h, p[len..len]) == Avalanche(h)
  {
  }

  /** XXH32_finalize: the 16-way switch with its fallthroughs. */
  method Finalize(h32: bv32, p: seq<byte>, len: nat) returns (r: bv32)
    requires len % 16 <= |p|
    ensures r == Tail(h32, p[..len % 16])
  {
    hide Tail, Avalanche;
    var k := len % 16;
    var h, i := h32, 0;
    if k == 12 || k == 8 || k == 4 {
      if k == 12 { h, i := PROCESS4(h, p, i, k); }
      if k >= 8 { h, i := PROCESS4(h, p, i, k); }
      h, i := PROCESS4(h, p, i, k);
    } else if k == 13 || k == 9 || k == 5 {
      if k == 13 { h, i := PROCESS4(h, p, i, k); }
      if k >= 9 { h, i := PROCESS4(h, p, i, k); }
      h, i := PROCESS4(h, p, i, k);
      h, i := PROCESS1(h, p, i, k);
    } else if k == 14 || k == 10 || k == 6 {
      if k == 14 { h, i := PROCESS4(h, p, i, k); }
      if k >= 10 { h, i := PROCESS4(h, p, i, k); }
      h, i := PROCESS4(h, p, i, k);
      h, i := PROCESS1(h, p, i, k);
      h, i := PROCESS1(h, p, i, k);
    } else {
      if k == 15 { h, i := PROCESS4(h, p, i, k); }
      if k >= 11 { h, i := PROCESS4(h, p, i, k); }
      if k >= 7 { h, i := PROCESS4(h, p, i, k); }
      if k >= 3 { h, i := PROCESS1(h, p, i, k); }
      if k >= 2 { h, i := PROCESS1(h, p, i, k); }
      if k >= 1 { h, i := PROCESS1(h, p, i, k); }
    }
    TailDone(h, p, k);
    assert p[..k] == p[0..k];
    r := Avalanche(h);
  }

  // ---------------------------------------------------------------- one shot

  lemma StripesStep(seed: bv32, data: seq<byte>, n: nat, l: Lanes, stripe: seq<byte>)
    requires 16 * n + 16 <= |data| && l == Stripes(seed, data, n) && stripe == data[16 * n..16 * n + 16]
    ensures Stripe(l, stripe) == Stripes(seed, data, n + 1)
  {
    hide Stripe, Init;
  }

  /** The four rounds of one turn of either main loop, at position `p` of a chunk inside `all`. */
  method FourRounds(l: Lanes, input: seq<byte>, p: nat, ghost all: seq<byte>, ghost seed: bv32, ghost n: nat)
    returns (l': Lanes)
    requires p + 16 <= |input| && 16 * n + 16 <= |all| && input[p..p + 16] == all[16 * n..16 * n + 16]
    requires l == Stripes(seed, all, n)
    ensures l' == Stripes(seed, all, n + 1)
  {
    hide Round, ReadLE32, Stripes;
    var s := input[p..p + 16];
    StripesStep(seed, all, n, l, s);
    l' :=
        Lanes(Round(l.v1, ReadLE32(s[..4])), Round(l.v2, ReadLE32(s[4..8])), Round(l.v3, ReadLE32(s[8..12])),
            Round(l.v4, ReadLE32(s[12..])));
  }

  /** XXH32. */
  method XXH32(input: seq<byte>, seed: bv32) returns (r: bv32)
    ensures r == Hash(seed, input)
  {
    hide Stripes, Tail, Lanes.Converge, Init, NoStripe, AddLength;
    var p, len := 0, |input|;
    var h32: bv32;
    if len >= 16 {
      var limit := len - 15;
      var l := Init(seed);
      StripesNone(seed, input);
      ghost var n := 0;
      while p < limit
        invariant p == 16 * n <= |input| && l == Stripes(seed, input, n)
      {
        l := FourRounds(l, input, p, input, seed, n);
        p, n := p + 16, n + 1;
      }
      h32 := l.Converge();
    } else {
      h32 := NoStripe(seed);
    }
    h32 := AddLength(h32, len);
    assert p == 16 * (len / 16) && input[p..][..len % 16] == input[p..];
    r := Finalize(h32, input[p..], len % 16);
  }

  lemma SeedLane(seed: bv32, data: seq<byte>)
    requires |data| < 16
    ensures Stripes(seed, data, |data| / 16).v3 == seed
  {
  }

  lemma StripesNone(seed: bv32, data: seq<byte>)
    ensures Stripes(seed, data, 0) == Init(seed)
  {
  }

  // ---------------------------------------------------------------- streaming

  /** The sticky flag is right even after the 32-bit length has wrapped. */
  lemma Lengths(a: nat, b: nat)
    ensures (a % U32 + b) % U32 == (a + b) % U32
    ensures a + b >= 16 <==> a >= 16 || b >= 16 || (a + b) % U32 >= 16
    ensures a % 16 + b < 16 ==> (a + b) / 16 == a / 16 && (a + b) % 16 == a % 16 + b
  {
  }

  lemma Multiple(a: nat, b: nat)
    requires a % 16 == 0 && a <= b < a + 16
    ensures b / 16 == a / 16 && b % 16 == b - a
  {
  }

  /** The fields after hashing exactly `data`. */
  ghost predicate Describes(seed: bv32, data: seq<byte>, total: nat, large: bool, acc: Lanes, kept: seq<byte>) {
    && total == |data| % U32 && large == (|data| >= 16)
    && acc == Stripes(seed, data, |data| / 16) && kept == data[16 * (|data| / 16)..]
  }

  lemma ShortUpdate(seed: bv32, data: seq<byte>, total: nat, large: bool, acc: Lanes, kept: seq<byte>, input: seq<byte>)
    requires Describes(seed, data, total, large, acc, kept) && |kept| + |input| < 16
    ensures var total' := (total + |input|) % U32;
      Describes(seed, data + input, total', large || |input| >= 16 || total' >= 16, acc, kept + input)
  {
    hide Stripes;
    Lengths(|data|, |input|);
    StripesPrefix(seed, data, input, |data| / 16);
  }

  lemma LongUpdate(seed: bv32, data: seq<byte>, total: nat, large: bool, acc: Lanes, kept: seq<byte>, input: seq<byte>,
      p: nat, acc': Lanes)
    requires Describes(seed, data, total, large, acc, kept)
    requires p <= |input| < p + 16 && (|data| + p) % 16 == 0 && acc' == Stripes(seed, data + input, (|data| + p) / 16)
    ensures var total' := (total + |input|) % U32;
      Describes(seed, data + input, total', large || |input| >= 16 || total' >= 16, acc', input[p..])
  {
    hide Stripes;
    Lengths(|data|, |input|);
    Multiple(|data| + p, |data| + |input|);
  }

  lemma Completed(data: seq<byte>, kept: seq<byte>, input: seq<byte>, from: nat)
    requires from <= |data| && kept == data[from..] && |kept| <= 16 <= |kept| + |input|
    ensures kept + input[..16 - |kept|] == (data + input)[from..from + 16]
  {
  }

  lemma WhatIsKept(seed: bv32, data: seq<byte>, total: nat, large: bool, acc: Lanes, kept: seq<byte>) returns (n: nat)
    requires Describes(seed, data, total, large, acc, kept)
    ensures n == |data| / 16 && 16 * n <= |data| && |kept| == |data| % 16 < 16
    ensures acc == Stripes(seed, data, n) && kept == data[16 * n..]
  {
    n := |data| / 16;
  }

  lemma BufferStripe(seed: bv32, data: seq<byte>, n: nat, acc: Lanes, kept: seq<byte>, input: seq<byte>,
      stripe: seq<byte>)
    requires 16 * n <= |data| && acc == Stripes(seed, data, n) && kept == data[16 * n..]
    requires |kept| < 16 <= |kept| + |input| && stripe == kept + input[..16 - |kept|]
    ensures Stripe(acc, stripe) == Stripes(seed, data + input, n + 1)
  {
    hide Stripes, Stripe;
    StripesPrefix(seed, data, input, n);
    Completed(data, kept, input, 16 * n);
    StripesStep(seed, data + input, n, acc, stripe);
  }

  lemma InsideAll(data: seq<byte>, input: seq<byte>, p: nat)
    requires p + 16 <= |input|
    ensures input[p..p + 16] == (data + input)[|data| + p..|data| + p + 16]
  {
  }

  lemma NextStripe(length: nat, kept: nat)
    requires kept == length % 16
    ensures (length + 16 - kept) % 16 == 0 && (length + 16 - kept) / 16 == length / 16 + 1
  {
  }

  lemma NothingKept(seed: bv32, data: seq<byte>, total: nat, large: bool, acc: Lanes, kept: seq<byte>, input: seq<byte>)
    requires Describes(seed, data, total, large, acc, kept) && kept == []
    ensures |data| % 16 == 0 && acc == Stripes(seed, data + input, |data| / 16)
  {
    hide Stripes;
    StripesPrefix(seed, data, input, |data| / 16);
  }

  /** XXH32_state_t, without the reserved field; the length is kept modulo 2^32. */
  class State {
    var total_len_32: nat
    var large_len: bool
    var v1: bv32
    var v2: bv32
    var v3: bv32
    var v4: bv32
    const mem32: array<byte>
    var memsize: nat

    ghost function Acc(): Lanes
      reads this
    {
      Lanes(v1, v2, v3, v4)
    }

    /** The state after hashing exactly `data`. */
    ghost predicate Holds(seed: bv32, data: seq<byte>)
      reads this, mem32
    {
      mem32.Length == 16 && memsize < 16 && Describes(seed, data, total_len_32, large_len, Acc(), mem32[..memsize])
    }

    constructor ()
      ensures mem32.Length == 16 && fresh(mem32)
    {
      mem32 := new byte[16](_ => 0);
    }

    /** XXH32_reset. */
    method Reset(seed: bv32)
      requires mem32.Length == 16
      modifies this, mem32
      ensures Holds(seed, [])
    {
      hide Stripes, Init;
      StripesNone(seed, []);
      total_len_32, large_len, memsize := 0, false, 0;
      forall i | 0 <= i < 16 { mem32[i] := 0; }
      var l := Init(seed);
      v1, v2, v3, v4 := l.v1, l.v2, l.v3, l.v4;
    }

    /** The bytes kept from earlier calls, completed to a stripe. */
    method ConsumeBuffer(input: seq<byte>, ghost seed: bv32, ghost data: seq<byte>, ghost total: nat, ghost large: bool)
      requires mem32.Length == 16 && memsize < 16 && Describes(seed, data, total, large, Acc(), mem32[..memsize])
      requires memsize > 0 && memsize + |input| >= 16
      modifies this`v1, this`v2, this`v3, this`v4, mem32
      ensures (|data| + 16 - memsize) % 16 == 0 && Acc() == Stripes(seed, data + input, (|data| + 16 - memsize) / 16)
    {
      hide Stripes, Round, ReadLE32, Describes;
      ghost var kept, l := mem32[..memsize], Acc();
      ghost var n := WhatIsKept(seed, data, total, large, l, kept);
      forall i | memsize <= i < 16 { mem32[i] := input[i - memsize]; }
      assert mem32[..] == kept + input[..16 - memsize];
      BufferStripe(seed, data, n, l, kept, input, mem32[..]);
      NextStripe(|data|, memsize);
      v1 := Round(v1, ReadLE32(mem32[..4]));
      v2 := Round(v2, ReadLE32(mem32[4..8]));
      v3 := Round(v3, ReadLE32(mem32[8..12]));
      v4 := Round(v4, ReadLE32(mem32[12..]));
      ghost var s := mem32[..];
      assert s[..4] == mem32[..4] && s[4..8] == mem32[4..8] && s[8..12] == mem32[8..12] && s[12..] == mem32[12..];
    }

    /** The main loop: all whole stripes of `input` from `p0` on. */
    method ConsumeStripes(input: seq<byte>, p0: nat, ghost seed: bv32, ghost data: seq<byte>) returns (p: nat)
      requires p0 <= |input| && (|data| + p0) % 16 == 0
      requires Acc() == Stripes(seed, data + input, (|data| + p0) / 16)
      modifies this`v1, this`v2, this`v3, this`v4
      ensures p0 <= p <= |input| < p + 16 && (|data| + p) % 16 == 0
      ensures Acc() == Stripes(seed, data + input, (|data| + p) / 16)
    {
      hide Stripes;
      p := p0;
      ghost var all, n := data + input, (|data| + p0) / 16;
      if p + 16 <= |input| {
        var l := Lanes(v1, v2, v3, v4);
        while p + 16 <= |input|
          modifies {}
          invariant p0 <= p <= |input| && |data| + p == 16 * n && l == Stripes(seed, all, n)
        {
          InsideAll(data, input, p);
          l := FourRounds(l, input, p, all, seed, n);
          p, n := p + 16, n + 1;
        }
        v1, v2, v3, v4 := l.v1, l.v2, l.v3, l.v4;
      }
      assert n == (|data| + p) / 16;
    }

    /** `XXH_memcpy` into the buffer, which then ends with `input[from..]`. */
    method Keep(input: seq<byte>, from: nat)
      requires mem32.Length == 16 && from <= |input| && memsize + (|input| - from) < 16
      modifies this`memsize, mem32
      ensures memsize == old(memsize) + (|input| - from) && mem32[..memsize] == old(mem32[..memsize]) + input[from..]
    {
      forall i | memsize <= i < memsize + (|input| - from) { mem32[i] := input[from + (i - memsize)]; }
      memsize := memsize + (|input| - from);
    }

    /** XXH32_update: from the state after `data` to the state after `data + input`. */
    method Update(input: seq<byte>, ghost seed: bv32, ghost data: seq<byte>)
      requires Holds(seed, data)
      modifies this, mem32
      ensures Holds(seed, data + input)
    {
      hide Stripes, Init, Describes;
      var len := |input|;
      ghost var total, large, acc, kept := total_len_32, large_len, Acc(), mem32[..memsize];
      total_len_32 := (total_len_32 + len) % U32;
      large_len := large_len || len >= 16 || total_len_32 >= 16;
      if memsize + len < 16 {
        Keep(input, 0);
        ShortUpdate(seed, data, total, large, acc, kept, input);
        assert input[0..] == input;
        return;
      }
      var p := 0;
      if memsize > 0 {
        ConsumeBuffer(input, seed, data, total, large);
        p, memsize := 16 - memsize, 0;
      } else {
        NothingKept(seed, data, total, large, acc, kept, input);
      }
      p := ConsumeStripes(input, p, seed, data);
      if p < len {
        Keep(input, p);
      }
      LongUpdate(seed, data, total, large, acc, kept, input, p, Acc());
      assert mem32[..memsize] == input[p..];
    }

    /** XXH32_digest. */
    method Digest(ghost seed: bv32, ghost data: seq<byte>) returns (r: bv32)
      requires Holds(seed, data)
      ensures r == Hash(seed, data)
    {
      hide Tail, Lanes.Converge, Stripes, NoStripe, AddLength;
      if !large_len { SeedLane(seed, data); }
      var h32: bv32;
      if large_len {
        h32 := Lanes(v1, v2, v3, v4).Converge();
      } else {
        h32 := NoStripe(v3);
      }
      AddLowLength(h32, |data|);
      h32 := AddLength(h32, total_len_32);
      assert mem32[..][..memsize] == mem32[..memsize];
      r := Finalize(h32, mem32[..], memsize);
    }
  }

  function Concat(chunks: seq<seq<byte>>): seq<byte> {
    if chunks == [] then [] else Concat(chunks[..|chunks| - 1]) + chunks[|chunks| - 1]
  }

  /** However the input is divided into updates, the digest is the one-shot hash. */
  method HashChunks(chunks: seq<seq<byte>>, seed: bv32) returns (streamed: bv32, oneShot: bv32)
    ensures streamed == oneShot == Hash(seed, Concat(chunks))
  {
    hide Hash, Stripes;
    var state := new State();
    state.Reset(seed);
    var i := 0;
    while i < |chunks|
      invariant 0 <= i <= |chunks| && fresh(state) && fresh(state.mem32)
      invariant state.Holds(seed, Concat(chunks[..i]))
    {
      assert chunks[..i + 1][..i] == chunks[..i];
      state.Update(chunks[i], seed, Concat(chunks[..i]));
      i := i + 1;
    }
    assert chunks[..|chunks|] == chunks;
    streamed := state.Digest(seed, Concat(chunks));
    oneShot := XXH32(Concat(chunks), seed);
  }
}
