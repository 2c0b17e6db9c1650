/** The chained index of lz4hc.c on one contiguous input: hash heads and distance chains. */
module HcMatchFinder {
  import opened Bytes
  import opened BlockFormat
  import opened MatchCount
  import opened Hashing
  import opened Numbers

  const LZ4HC_HASHTABLESIZE := 0x8000
  const LZ4HC_MAXD := 0x10000

  function HashAt(hash: Hash, src: seq<byte>, p: nat): nat
    requires p + 4 <= |src|
  {
    hash(src[p..p + 4])
  }

  // ---------------------------------------------------------------- the index

  /** `head` is the index of the last position before `end` with hash `h`, or below `start`,
      the index of the first input byte. */
  ghost predicate IsHead(hash: Hash, src: seq<byte>, start: nat, end: nat, h: nat, head: nat)
    requires end == 0 || end + 3 <= |src|
  {
    && head < start + end
    && (forall q: nat :: head - start < q < end ==> HashAt(hash, src, q) != h)
    && (head >= start ==> HashAt(hash, src, head - start) == h)
  }

  ghost predicate Heads(hash: Hash, src: seq<byte>, start: nat, end: nat, heads: seq<nat>)
    requires end == 0 || end + 3 <= |src|
  {
    |heads| == LZ4HC_HASHTABLESIZE &&
    forall h :: 0 <= h < |heads| ==> IsHead(hash, src, start, end, h, heads[h])
  }

  /** The chain entry of position `p` leads to the previous position with the same hash, or is
      saturated, or leads out of the input; in any case it skips no position with that hash. */
  ghost predicate Linked(hash: Hash, src: seq<byte>, start: nat, chain: seq<nat>, p: nat)
    requires |chain| == LZ4HC_MAXD && p + 4 <= |src|
  {
    var delta := chain[(p + start) % LZ4HC_MAXD];
    && 1 <= delta <= DISTANCE_MAX
    && (forall q: nat :: p - delta < q < p ==> HashAt(hash, src, q) != HashAt(hash, src, p))
    && (delta < DISTANCE_MAX && delta <= p ==> HashAt(hash, src, p - delta) == HashAt(hash, src, p))
  }

  /** The chain describes the last 64 KB of positions before `end`. */
  ghost predicate Links(hash: Hash, src: seq<byte>, start: nat, end: nat, chain: seq<nat>)
    requires end == 0 || end + 3 <= |src|
  {
    && |chain| == LZ4HC_MAXD && (forall i :: 0 <= i < |chain| ==> chain[i] <= DISTANCE_MAX)
    && forall p: nat :: end - LZ4HC_MAXD <= p < end ==> Linked(hash, src, start, chain, p)
  }

  lemma SlotsDiffer(a: nat, b: nat)
    requires a < b < a + LZ4HC_MAXD
    ensures a % LZ4HC_MAXD != b % LZ4HC_MAXD
  {
  }

  lemma OtherHead(hash: Hash, src: seq<byte>, start: nat, p: nat, h: nat, head: nat)
    requires p + 4 <= |src| && IsHead(hash, src, start, p, h, head) && h != HashAt(hash, src, p)
    ensures IsHead(hash, src, start, p + 1, h, head)
  {
  }

  lemma HeadsInserted(hash: Hash, src: seq<byte>, start: nat, p: nat, heads: seq<nat>)
    requires HashesInto(hash, LZ4HC_HASHTABLESIZE) && p + 4 <= |src| && Heads(hash, src, start, p, heads)
    ensures Heads(hash, src, start, p + 1, heads[HashAt(hash, src, p) := start + p])
  {
    hide HashAt;
    var h := HashAt(hash, src, p);
    assert h < LZ4HC_HASHTABLESIZE by { HashFits(hash, src, p); }
    var heads' := heads[h := start + p];
    forall g | 0 <= g < |heads'| ensures IsHead(hash, src, start, p + 1, g, heads'[g]) {
      if g != h { OtherHead(hash, src, start, p, g, heads[g]); }
    }
  }

  lemma HashFits(hash: Hash, src: seq<byte>, p: nat)
    requires HashesInto(hash, LZ4HC_HASHTABLESIZE) && p + 4 <= |src|
    ensures HashAt(hash, src, p) < LZ4HC_HASHTABLESIZE
  {
  }

  /** A new entry in its slot; the slots of the positions before it stay. */
  lemma LinksInserted(hash: Hash, src: seq<byte>, start: nat, p: nat, chain: seq<nat>, delta: nat)
    requires p + 4 <= |src| && Links(hash, src, start, p, chain)
    requires Linked(hash, src, start, chain[(p + start) % LZ4HC_MAXD := delta], p) && delta <= DISTANCE_MAX
    ensures Links(hash, src, start, p + 1, chain[(p + start) % LZ4HC_MAXD := delta])
  {
    hide HashAt;
    var chain' := chain[(p + start) % LZ4HC_MAXD := delta];
    forall q: nat | p + 1 - LZ4HC_MAXD <= q < p + 1 ensures Linked(hash, src, start, chain', q) {
      if q < p {
        SlotsDiffer(q + start, p + start);
        assert Linked(hash, src, start, chain, q);
      }
    }
  }

  /** The entry of a position is made from the head of its hash. */
  lemma NewLink(hash: Hash, src: seq<byte>, start: nat, p: nat, chain: seq<nat>, head: nat)
    requires p + 4 <= |src| && |chain| == LZ4HC_MAXD && IsHead(hash, src, start, p, HashAt(hash, src, p), head)
    ensures Linked(hash, src, start, chain[(p + start) % LZ4HC_MAXD := Min(start + p - head, DISTANCE_MAX)], p)
  {
    hide HashAt;
  }

  /** One turn of LZ4HC_Insert keeps both tables right. */
  lemma Inserted(hash: Hash, src: seq<byte>, start: nat, p: nat, heads: seq<nat>, chain: seq<nat>)
    requires HashesInto(hash, LZ4HC_HASHTABLESIZE) && p + 4 <= |src|
    requires Heads(hash, src, start, p, heads) && Links(hash, src, start, p, chain)
    ensures var h := HashAt(hash, src, p);
      && IsHead(hash, src, start, p, h, heads[h])
      && Heads(hash, src, start, p + 1, heads[h := start + p])
      && Links(hash, src, start, p + 1, chain[(p + start) % LZ4HC_MAXD := Min(start + p - heads[h], DISTANCE_MAX)])
  {
    hide HashAt, Linked;
    HashFits(hash, src, p);
    var h := HashAt(hash, src, p);
    assert IsHead(hash, src, start, p, h, heads[h]);
    HeadsInserted(hash, src, start, p, heads);
    NewLink(hash, src, start, p, chain, heads[h]);
    LinksInserted(hash, src, start, p, chain, Min(start + p - heads[h], DISTANCE_MAX));
  }

  /** LZ4HC_CCtx_internal, without dictionary. Table entries are indices; the first byte of the
      current input has index `start`, at least 64 KB. */
  class Index {
    const hash: Hash
    const hashTable: array<nat>
    const chainTable: array<nat>
    var start: nat
    var nextToUpdate: nat

    /** The tables describe every position before `nextToUpdate`. */
    ghost predicate Valid(src: seq<byte>)
      reads this, hashTable, chainTable
    {
      && HashesInto(hash, LZ4HC_HASHTABLESIZE) && hashTable != chainTable
      && LZ4HC_MAXD <= start <= nextToUpdate
      && (nextToUpdate == start || nextToUpdate - start + 3 <= |src|)
      && Heads(hash, src, start, nextToUpdate - start, hashTable[..])
      && Links(hash, src, start, nextToUpdate - start, chainTable[..])
    }

    /** Tables left behind by earlier inputs that ended at index `used`; past 1 GB, or in a new
        state, they may hold anything. */
    ghost predicate Idle(used: nat)
      reads this, hashTable, chainTable
    {
      && HashesInto(hash, LZ4HC_HASHTABLESIZE) && hashTable != chainTable
      && hashTable.Length == LZ4HC_HASHTABLESIZE && chainTable.Length == LZ4HC_MAXD
      && (used <= GB ==> (forall h :: 0 <= h < hashTable.Length ==> hashTable[h] <= used)
                         && forall i :: 0 <= i < chainTable.Length ==> chainTable[i] <= DISTANCE_MAX)
    }

    /** An index nothing has been entered into yet. */
    ghost predicate Fresh()
      reads this, hashTable, chainTable
    {
      start == nextToUpdate && forall src: seq<byte> :: Valid(src)
    }

    constructor (hash: Hash)
      requires HashesInto(hash, LZ4HC_HASHTABLESIZE)
      ensures forall used: nat :: used > GB ==> Idle(used)
      ensures this.hash == hash && fresh(hashTable) && fresh(chainTable)
    {
      this.hash := hash;
      hashTable := new nat[LZ4HC_HASHTABLESIZE];
      chainTable := new nat[LZ4HC_MAXD];
      start, nextToUpdate := 0, 0;
    }

    /** LZ4HC_init_internal: the indices of the next input go on behind those of the last, or
        the tables are cleared once they pass 1 GB; either way no old entry is ever taken for a
        position of the new input. */
    method Restart(used: nat)
      requires Idle(used)
      modifies this, hashTable, chainTable
      ensures Fresh() && start <= GB + LZ4HC_MAXD
    {
      var startingOffset := used;
      if startingOffset > GB {
        forall i | 0 <= i < hashTable.Length { hashTable[i] := 0; }
        forall i | 0 <= i < chainTable.Length { chainTable[i] := DISTANCE_MAX; }
        startingOffset := 0;
      }
      startingOffset := startingOffset + LZ4HC_MAXD;
      start, nextToUpdate := startingOffset, startingOffset;
      forall next: seq<byte> ensures Heads(hash, next, start, 0, hashTable[..]) {
      }
    }

    /** After an input, every entry is an index within it or older. */
    lemma BecomesIdle(src: seq<byte>)
      requires Valid(src)
      ensures Idle(start + |src|)
    {
      forall h | 0 <= h < hashTable.Length ensures hashTable[h] <= start + |src| {
        assert IsHead(hash, src, start, nextToUpdate - start, h, hashTable[..][h]);
      }
      forall i | 0 <= i < chainTable.Length ensures chainTable[i] <= DISTANCE_MAX {
        assert chainTable[..][i] <= DISTANCE_MAX;
      }
    }

    lemma HeadCount(src: seq<byte>)
      requires Valid(src)
      ensures hashTable.Length == LZ4HC_HASHTABLESIZE && chainTable.Length == LZ4HC_MAXD
    {
    }

    /** LZ4HC_Insert: indexes every position before `ip`. */
    method Insert(src: seq<byte>, ip: nat)
      requires Valid(src) && nextToUpdate <= start + ip && ip + 3 <= |src|
      modifies this`nextToUpdate, hashTable, chainTable
      ensures Valid(src) && nextToUpdate == start + ip
    {
      hide HashesInto, HashAt, Linked, Heads, Links;
      HeadCount(src);
      var target, idx := start + ip, nextToUpdate;
      while idx < target
        invariant nextToUpdate <= idx <= target
        invariant Heads(hash, src, start, idx - start, hashTable[..])
        invariant Links(hash, src, start, idx - start, chainTable[..])
      {
        HashFits(hash, src, idx - start);
        var h := HashAt(hash, src, idx - start);
        Inserted(hash, src, start, idx - start, hashTable[..], chainTable[..]);
        var delta := idx - hashTable[h];
        if delta > DISTANCE_MAX { delta := DISTANCE_MAX; }
        chainTable[idx % LZ4HC_MAXD] := delta;
        hashTable[h] := idx;
        idx := idx + 1;
      }
      nextToUpdate := target;
    }
  }
}
