/** The bitmask in which d1_both.cc records which bytes of a message have arrived. */
module ReassemblyMask {

  predicate Bit(m: bv8, j: nat)
    requires j < 8
  {
    m & OneBit(j) != 0
  }

  function OneBit(j: nat): bv8
    requires j < 8
  {
    if j == 0 then 1 else if j == 1 then 2 else if j == 2 then 4 else if j == 3 then 8
    else if j == 4 then 16 else if j == 5 then 32 else if j == 6 then 64 else 128
  }

  /** `(1u << n) - 1`. */
  function Ones(n: nat): bv32
    requires n <= 8
  {
    ((1 as bv32) << n) - 1
  }

  /** bit_range. */
  function BitRange(start: nat, end: nat): bv8
    requires start <= 8 && end <= 8
  {
    ((!Ones(start) & Ones(end)) & 0xff) as bv8
  }

  lemma OnesCases(n: nat)
    requires n <= 8
    ensures Ones(n) == if n == 0 then 0 else if n == 1 then 1 else if n == 2 then 3 else if n == 3 then 7
            else if n == 4 then 15
                       else if n == 5 then 31 else if n == 6 then 63 else if n == 7 then 127 else 255
  {
  }

  lemma BitRangeBit(start: nat, end: nat, j: nat)
    requires start <= 8 && end <= 8 && j < 8
    ensures Bit(BitRange(start, end), j) <==> start <= j < end
  {
    OnesCases(start);
    OnesCases(end);
  }

  lemma OrBit(a: bv8, b: bv8, j: nat)
    requires j < 8
    ensures Bit(a | b, j) <==> Bit(a, j) || Bit(b, j)
  {
  }

  /** A byte is determined by its bits. */
  lemma SameBits(a: bv8, b: bv8)
    requires forall j :: 0 <= j < 8 ==> (Bit(a, j) <==> Bit(b, j))
    ensures a == b
  {
    assert forall j :: 0 <= j < 8 ==> (Bit(a, j) <==> Bit(b, j));
    assert (Bit(a, 0) <==> Bit(b, 0)) && (Bit(a, 1) <==> Bit(b, 1)) && (Bit(a, 2) <==> Bit(b, 2))
        && (Bit(a, 3) <==> Bit(b, 3));
    assert (Bit(a, 4) <==> Bit(b, 4)) && (Bit(a, 5) <==> Bit(b, 5)) && (Bit(a, 6) <==> Bit(b, 6))
        && (Bit(a, 7) <==> Bit(b, 7));
  }

  lemma AllBits(j: nat)
    requires j < 8
    ensures Bit(0xff, j) && !Bit(0, j)
  {
  }

  // ---------------------------------------------------------------- the mask

  /** Byte `k` of the message is marked. */
  predicate Got(mask: seq<bv8>, k: nat) {
    k < 8 * |mask| && Bit(mask[k / 8], k % 8)
  }

  lemma Slot(k: nat, b: nat)
    ensures k / 8 == b <==> 8 * b <= k < 8 * b + 8
    ensures k / 8 == b ==> k % 8 == k - 8 * b
  {
  }

  /** OR-ing a range into byte `b` marks exactly that range. */
  function OrByte(mask: seq<bv8>, b: nat, start: nat, end: nat): (now: seq<bv8>)
    requires b < |mask| && start <= 8 && end <= 8
    ensures |now| == |mask|
    ensures forall k: nat :: Got(now, k) <==> Got(mask, k) || 8 * b + start <= k < 8 * b + end
  {
    OrMarks(mask, b, start, end);
    mask[b := mask[b] | BitRange(start, end)]
  }

  lemma OrMarks(mask: seq<bv8>, b: nat, start: nat, end: nat)
    requires b < |mask| && start <= 8 && end <= 8
    ensures forall k: nat :: Got(mask[b := mask[b] | BitRange(start, end)], k) <==>
      Got(mask, k) || 8 * b + start <= k < 8 * b + end
  {
    hide Bit, BitRange;
    var now := mask[b := mask[b] | BitRange(start, end)];
    forall k: nat ensures Got(now, k) <==> Got(mask, k) || 8 * b + start <= k < 8 * b + end {
      Slot(k, b);
      if k / 8 == b {
        OrBit(mask[b], BitRange(start, end), k % 8);
        BitRangeBit(start, end, k % 8);
      }
    }
  }

  lemma FillMarks(mask: seq<bv8>, b: nat)
    requires b < |mask|
    ensures forall k: nat :: Got(mask[b := 0xff], k) <==> Got(mask, k) || 8 * b <= k < 8 * b + 8
  {
    hide Bit;
    var now := mask[b := 0xff];
    forall k: nat ensures Got(now, k) <==> Got(mask, k) || 8 * b <= k < 8 * b + 8 {
      Slot(k, b);
      if k / 8 == b { AllBits(k % 8); }
    }
  }

  /** The marking half of dtls1_hm_fragment_mark. */
  method MarkRange(mask0: seq<bv8>, start: nat, end: nat) returns (mask: seq<bv8>)
    requires start < end <= 8 * |mask0|
    ensures |mask| == |mask0| && forall k: nat :: Got(mask, k) <==> Got(mask0, k) || start <= k < end
  {
    hide Got, Bit, BitRange;
    mask := mask0;
    var s, e := start / 8, end / 8;
    if s == e {
      mask := OrByte(mask, s, start % 8, end % 8);
    } else {
      mask := OrByte(mask, s, start % 8, 8);
      var i := s + 1;
      while i < e
        invariant s < i <= e && |mask| == |mask0|
        invariant forall k: nat :: Got(mask, k) <==> Got(mask0, k) || start <= k < 8 * i
      {
        FillMarks(mask, i);
        mask := mask[i := 0xff];
        i := i + 1;
      }
      if end % 8 != 0 {
        mask := OrByte(mask, e, 0, end % 8);
      }
    }
  }

  /** Nothing is marked past the end of the message. */
  ghost predicate Padded(mask: seq<bv8>, msg_len: nat) {
    |mask| == (msg_len + 7) / 8 && forall k: nat :: msg_len <= k ==> !Got(mask, k)
  }

  lemma ByteFull(mask: seq<bv8>, i: nat)
    requires i < |mask|
    ensures mask[i] == 0xff <==> forall k: nat :: 8 * i <= k < 8 * i + 8 ==> Got(mask, k)
  {
    hide Bit;
    if mask[i] == 0xff {
      forall k: nat | 8 * i <= k < 8 * i + 8 ensures Got(mask, k) {
        Slot(k, i);
        AllBits(k % 8);
      }
    } else if forall k: nat :: 8 * i <= k < 8 * i + 8 ==> Got(mask, k) {
      forall j | 0 <= j < 8 ensures Bit(mask[i], j) <==> Bit(0xff, j) {
        assert Got(mask, 8 * i + j);
        Slot(8 * i + j, i);
        AllBits(j);
      }
      SameBits(mask[i], 0xff);
    }
  }

  lemma LastByteFull(mask: seq<bv8>, msg_len: nat)
    requires Padded(mask, msg_len) && msg_len % 8 != 0
    ensures mask[msg_len / 8] == BitRange(0, msg_len % 8) <==> forall k: nat :: 8 * (msg_len / 8) <= k < msg_len ==>
      Got(mask, k)
  {
    hide Bit, BitRange;
    var i, r := msg_len / 8, msg_len % 8;
    if mask[i] == BitRange(0, r) {
      forall k: nat | 8 * i <= k < msg_len ensures Got(mask, k) {
        Slot(k, i);
        BitRangeBit(0, r, k % 8);
      }
    } else if forall k: nat :: 8 * i <= k < msg_len ==> Got(mask, k) {
      forall j | 0 <= j < 8 ensures Bit(mask[i], j) <==> Bit(BitRange(0, r), j) {
        Slot(8 * i + j, i);
        BitRangeBit(0, r, j);
        assert j < r ==> Got(mask, 8 * i + j);
        assert j >= r ==> !Got(mask, 8 * i + j);
      }
      SameBits(mask[i], BitRange(0, r));
    }
  }

  /** The completeness check of dtls1_hm_fragment_mark: true exactly if every byte is marked. */
  method AllMarked(mask: seq<bv8>, msg_len: nat) returns (complete: bool)
    requires Padded(mask, msg_len)
    ensures complete <==> forall k: nat :: k < msg_len ==> Got(mask, k)
  {
    hide Got, Bit, BitRange;
    var i := 0;
    while i < msg_len / 8
      invariant 0 <= i <= msg_len / 8
      invariant forall k: nat :: k < 8 * i ==> Got(mask, k)
    {
      ByteFull(mask, i);
      if mask[i] != 0xff { return false; }
      i := i + 1;
    }
    if msg_len % 8 != 0 {
      LastByteFull(mask, msg_len);
      if mask[msg_len / 8] != BitRange(0, msg_len % 8) { return false; }
    }
    complete := true;
  }

  /** A cleared mask. */
  function NoBits(msg_len: nat): (mask: seq<bv8>)
    ensures Padded(mask, msg_len) && forall k: nat :: !Got(mask, k)
  {
    seq((msg_len + 7) / 8, _ => 0)
  }
}
