/**
 dtls_record.cc: the sliding window that keeps a record from being accepted twice (RFC 6347,
 section 4.1.2.6), and where dtls_open_record consults and updates it.
*/
module ReplayWindow {
  import opened Bytes
  import opened Numbers

  const WINDOW := 64

  // ---------------------------------------------------------------- sequence numbers

  /** The number that big-endian bytes spell. */
  function BigEndian(p: seq<byte>): nat {
    if p == [] then 0 else var b: nat := p[|p| - 1]; 256 * BigEndian(p[..|p| - 1]) + b
  }

  lemma {:induction false} BigEndianBound(p: seq<byte>)
    ensures BigEndian(p) < Pow256(|p|)
  {
    if p != [] { BigEndianBound(p[..|p| - 1]); }
  }

  /** Different sequence numbers of the same width have different values. */
  lemma {:induction false} BigEndianInjective(p: seq<byte>, q: seq<byte>)
    requires |p| == |q| && BigEndian(p) == BigEndian(q)
    ensures p == q
  {
    if p != [] {
      var n := |p| - 1;
      BigEndianInjective(p[..n], q[..n]);
      assert p == p[..n] + [p[n]] && q == q[..n] + [q[n]];
    }
  }

  lemma EightBytes(i: nat)
    requires i <= 8
    ensures 0 < Pow256(i) && Pow256(i) <= U64
  {
    PowersOf256();
  }

  /** to_u64_be, in 64-bit arithmetic. */
  method ToU64Be(sequence: seq<byte>) returns (ret: nat)
    requires |sequence| == 8
    ensures ret == BigEndian(sequence) < U64
  {
    ret := 0;
    var i := 0;
    while i < 8
      invariant 0 <= i <= 8 && ret == BigEndian(sequence[..i])
    {
      assert sequence[..i + 1][..i] == sequence[..i];
      BigEndianBound(sequence[..i + 1]);
      EightBytes(i + 1);
      var b: nat := sequence[i];
      ret := (ret * 256) % U64 + b;
      i := i + 1;
    }
    assert sequence[..8] == sequence;
    BigEndianBound(sequence);
    EightBytes(8);
  }

  // ---------------------------------------------------------------- bits of the map

  predicate Bit(map_: bv64, i: bv6) {
    (map_ >> i) & 1 != 0
  }

  /** A distance below the window size, as a shift amount. */
  function Index(n: nat): bv6
    requires n < WINDOW
  {
    n as bv6
  }

  lemma IndexValue(n: nat)
    requires n < WINDOW
    ensures Index(n) as nat == n
  {
  }

  lemma IndexOrder(a: bv6, b: bv6)
    ensures a <= b <==> a as nat <= b as nat
  {
  }

  lemma IndexDifference(a: bv6, b: bv6)
    requires b <= a
    ensures (a - b) as nat == a as nat - b as nat
  {
  }

  lemma IndexUnique(a: bv6, b: bv6)
    requires a as nat == b as nat
    ensures a == b
  {
  }

  predicate HasBit(map_: bv64, i: bv6) {
    map_ & (1 << i) != 0
  }

  lemma TestBit(map_: bv64, i: bv6)
    ensures HasBit(map_, i) <==> Bit(map_, i)
  {
  }

  function WithBit(map_: bv64, j: bv6): bv64 {
    map_ | (1 << j)
  }

  lemma SetBit(map_: bv64, j: bv6, i: bv6)
    ensures Bit(WithBit(map_, j), i) <==> i == j || Bit(map_, i)
  {
  }

  function Shl(map_: bv64, s: bv6): bv64 {
    map_ << s
  }

  lemma BitIs(map_: bv64, i: bv6)
    ensures Bit(map_, i) <==> (map_ >> i) & 1 != 0
  {
  }

  lemma ShlIs(map_: bv64, s: bv6)
    ensures Shl(map_, s) == map_ << s
  {
  }

  lemma RawLow(m: bv64, s: bv6, i: bv6, j: bv6, y: bv64)
    requires s <= i && s < 8 && j == i - s && y == m << s
    ensures (y >> i) & 1 != 0 <==> (m >> j) & 1 != 0
  {
  }

  lemma RawHigh(m: bv64, s: bv6, i: bv6, j: bv6, y: bv64)
    requires s <= i && s & 7 == 0 && j == i - s && y == m << s
    ensures (y >> i) & 1 != 0 <==> (m >> j) & 1 != 0
  {
  }

  lemma ShiftLow(m: bv64, s: bv6, i: bv6, j: bv6)
    requires s <= i && s < 8 && j == i - s
    ensures Bit(Shl(m, s), i) <==> Bit(m, j)
  {
    hide Bit, Shl;
    BitIs(Shl(m, s), i);
    BitIs(m, j);
    ShlIs(m, s);
    RawLow(m, s, i, j, Shl(m, s));
  }

  lemma ShiftHigh(m: bv64, s: bv6, i: bv6, j: bv6)
    requires s <= i && s & 7 == 0 && j == i - s
    ensures Bit(Shl(m, s), i) <==> Bit(m, j)
  {
    hide Bit, Shl;
    BitIs(Shl(m, s), i);
    BitIs(m, j);
    ShlIs(m, s);
    RawHigh(m, s, i, j, Shl(m, s));
  }

  lemma RawTwice(m: bv64, s: bv6)
    ensures m << s == (m << (s & 7)) << (s & 0x38)
  {
  }

  /** A shift by less than 8 and one by a multiple of 8. */
  lemma ShiftTwice(m: bv64, s: bv6, i: bv6) returns (a: bv6, b: bv6, j: bv6)
    requires s <= i
    ensures Shl(m, s) == Shl(Shl(m, a), b)
    ensures a < 8 && b & 7 == 0 && b <= i && j == i - b && a <= j && j - a == i - s
  {
    a, b := s & 7, s & 0x38;
    j := i - b;
    RawTwice(m, s);
  }

  lemma ShiftedOut(m: bv64, s: bv6, i: bv6)
    requires i < s
    ensures !Bit(Shl(m, s), i)
  {
  }

  /** Shifting left moves every bit up. */
  lemma ShiftBit(m: bv64, s: bv6, i: bv6, k: bv6)
    requires s <= i && k == i - s
    ensures Bit(Shl(m, s), i) <==> Bit(m, k)
  {
    hide Bit, Shl;
    var a, b, j := ShiftTwice(m, s, i);
    ShiftHigh(Shl(m, a), b, i, j);
    ShiftLow(m, a, j, k);
  }

  // ---------------------------------------------------------------- what the window means

  /** Bit `i` is set exactly if the number `i` below `max` has been accepted. */
  ghost predicate BitOf(map_: bv64, max: nat, accepted: set<nat>, i: bv6) {
    Bit(map_, i) <==> i as nat <= max && max - i as nat in accepted
  }

  /** After the numbers `accepted`: the largest of them (or 0), and the bits say which of
      the others have been accepted. */
  ghost predicate Describes(map_: bv64, max: nat, accepted: set<nat>) {
    && (forall a <- accepted :: a <= max) && (max > 0 ==> max in accepted)
    && forall i: bv6 :: BitOf(map_, max, accepted, i)
  }

  /** Too far behind a number already accepted to be told from a replay. */
  ghost predicate Stale(accepted: set<nat>, s: nat) {
    exists a <- accepted :: s + WINDOW <= a
  }

  lemma DiscardDecides(map_: bv64, max: nat, accepted: set<nat>, s: nat)
    requires Describes(map_, max, accepted)
    ensures s > max ==> s !in accepted && !Stale(accepted, s)
    ensures s + WINDOW <= max ==> Stale(accepted, s)
    ensures s <= max < s + WINDOW ==> !Stale(accepted, s) && (Bit(map_, Index(max - s)) <==> s in accepted)
  {
    hide Bit, Index;
    if s <= max < s + WINDOW {
      IndexValue(max - s);
      assert BitOf(map_, max, accepted, Index(max - s));
    }
  }

  /** The map once the window has moved up to a new largest number `s`. */
  function Slide(map_: bv64, max: nat, s: nat): bv64
    requires max < s
  {
    if s - max >= WINDOW then 0 else Shl(map_, Index(s - max))
  }

  lemma NoBits(i: bv6)
    ensures !Bit(0, i)
  {
  }

  lemma Subtract(i: bv6, s: bv6) returns (k: bv6)
    requires s as nat <= i as nat
    ensures s <= i && k == i - s && k as nat == i as nat - s as nat
  {
    IndexOrder(s, i);
    IndexDifference(i, s);
    k := i - s;
  }

  /** A shift by `d` moves a bit up by `d`, and clears the lowest `d` bits. */
  lemma ShiftedFrom(map_: bv64, d: nat, i: bv6) returns (k: bv6)
    requires d < WINDOW && d <= i as nat
    ensures k as nat == i as nat - d && (Bit(Shl(map_, Index(d)), i) <==> Bit(map_, k))
  {
    hide Bit, Index, Shl;
    IndexValue(d);
    k := Subtract(i, Index(d));
    ShiftBit(map_, Index(d), i, k);
  }

  lemma LowBitsClear(map_: bv64, d: nat, i: bv6)
    requires i as nat < d < WINDOW
    ensures !Bit(Shl(map_, Index(d)), i)
  {
    hide Bit, Index, Shl;
    IndexValue(d);
    IndexOrder(Index(d), i);
    ShiftedOut(map_, Index(d), i);
  }

  lemma SlideNear(map_: bv64, max: nat, accepted: set<nat>, d: nat, i: bv6)
    requires (forall a <- accepted :: a <= max) && 0 < d < WINDOW && forall k: bv6 :: BitOf(map_, max, accepted, k)
    ensures BitOf(Shl(map_, Index(d)), max + d, accepted, i)
  {
    hide Bit, Index, Shl;
    if d <= i as nat {
      var k := ShiftedFrom(map_, d, i);
      assert BitOf(map_, max, accepted, k);
    } else {
      LowBitsClear(map_, d, i);
    }
  }

  lemma SlideFar(max: nat, accepted: set<nat>, d: nat, i: bv6)
    requires (forall a <- accepted :: a <= max) && WINDOW <= d
    ensures BitOf(0, max + d, accepted, i)
  {
    hide Bit;
    NoBits(i);
  }

  /** Sliding keeps every bit on its number. */
  lemma SlideBit(map_: bv64, max: nat, accepted: set<nat>, s: nat, i: bv6)
    requires Describes(map_, max, accepted) && max < s
    ensures BitOf(Slide(map_, max, s), s, accepted, i)
  {
    hide Bit, Index, Shl;
    if s - max >= WINDOW {
      SlideFar(max, accepted, s - max, i);
    } else {
      SlideNear(map_, max, accepted, s - max, i);
    }
  }

  /** Setting the bit of a number inside the window records it. */
  lemma Recorded(map_: bv64, max: nat, accepted: set<nat>, s: nat)
    requires s <= max < s + WINDOW && (forall a <- accepted :: a <= max) && (max > 0 ==> max in accepted + {s})
    requires forall i: bv6 :: BitOf(map_, max, accepted, i)
    ensures Describes(WithBit(map_, Index(max - s)), max, accepted + {s})
  {
    hide Bit, Index, WithBit;
    var j := Index(max - s);
    var m := WithBit(map_, j);
    IndexValue(max - s);
    forall i: bv6 ensures BitOf(m, max, accepted + {s}, i) {
      assert BitOf(map_, max, accepted, i);
      SetBit(map_, j, i);
      if i as nat == max - s { IndexUnique(i, j); }
    }
  }

  /** DTLS1_BITMAP. */
  class Bitmap {
    var map_: bv64
    var max_seq_num: nat

    ghost predicate Holds(accepted: set<nat>)
      reads this
    {
      Describes(map_, max_seq_num, accepted)
    }

    constructor ()
      ensures Holds({})
    {
      map_, max_seq_num := 0, 0;
      new;
      forall i: bv6 ensures !Bit(0, i) { NoBits(i); }
    }

    /** The memset on a change of epoch. */
    method Clear()
      modifies this
      ensures Holds({})
    {
      map_, max_seq_num := 0, 0;
      forall i: bv6 ensures !Bit(0, i) { NoBits(i); }
    }

    /** dtls1_bitmap_should_discard: exactly the replays and the stale numbers. */
    method ShouldDiscard(sequence: seq<byte>, ghost accepted: set<nat>) returns (discard: bool)
      requires |sequence| == 8 && Holds(accepted)
      ensures discard <==> BigEndian(sequence) in accepted || Stale(accepted, BigEndian(sequence))
    {
      hide Bit, HasBit, Index, Describes;
      var s := ToU64Be(sequence);
      DiscardDecides(map_, max_seq_num, accepted, s);
      if s > max_seq_num { return false; }
      var idx := max_seq_num - s;
      if idx < WINDOW { TestBit(map_, Index(idx)); }
      discard := idx >= WINDOW || HasBit(map_, Index(idx));
    }

    /** The part of dtls1_bitmap_record that shifts the window. */
    method ShiftWindow(s: nat, ghost accepted: set<nat>)
      requires Holds(accepted) && max_seq_num < s
      modifies this
      ensures max_seq_num == s && forall i: bv6 :: Bit(map_, i) <==> i as nat <= s && s - i as nat in accepted
    {
      hide Bit, Index, Shl, Describes;
      ghost var slid := Slide(map_, max_seq_num, s);
      forall i: bv6 ensures Bit(slid, i) <==> i as nat <= s && s - i as nat in accepted {
        SlideBit(map_, max_seq_num, accepted, s, i);
      }
      var shift := s - max_seq_num;
      if shift >= WINDOW {
        map_ := 0;
      } else {
        map_ := Shl(map_, Index(shift));
      }
      max_seq_num := s;
    }

    /** dtls1_bitmap_record. A stale number, which the callers rule out, changes nothing. */
    method Record(sequence: seq<byte>, ghost accepted: set<nat>)
      requires |sequence| == 8 && Holds(accepted)
      modifies this
      ensures Holds(if Stale(accepted, BigEndian(sequence)) then accepted else accepted + {BigEndian(sequence)})
    {
      hide Bit, Stale, Index, WithBit;
      var s := ToU64Be(sequence);
      DiscardDecides(map_, max_seq_num, accepted, s);
      if s > max_seq_num {
        ShiftWindow(s, accepted);
      }
      var idx := max_seq_num - s;
      if idx < WINDOW {
        Recorded(map_, max_seq_num, accepted, s);
        map_ := WithBit(map_, Index(idx));
      }
    }
  }
}
