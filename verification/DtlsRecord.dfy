/** dtls_open_record and what surrounds it: which records a DTLS connection accepts. */
module DtlsRecord {
  import opened Bytes
  import opened Numbers
  import opened ReplayWindow

  const SSL3_RT_ALERT: byte := 21
  const DTLS1_VERSION_MAJOR := 0xfe
  const DTLS1_RT_HEADER_LENGTH := 13
  const SSL3_RT_MAX_PLAIN_LENGTH := 16384
  const SSL3_RT_MAX_ENCRYPTED_LENGTH := 256 + 64 + 16384

  datatype Record = Record(kind: byte, version: nat, sequence: seq<byte>, header: seq<byte>, body: seq<byte>)

  /** The record header, if it is complete and its length is in range. */
  function ParseRecord(in_: seq<byte>): (r: Option<Record>)
    ensures r.Some? ==> |r.value.sequence| == 8 && r.value.header + r.value.body <= in_
  {
    if |in_| < DTLS1_RT_HEADER_LENGTH then None else
      var length := Read16(in_[11..13]);
      if |in_| < DTLS1_RT_HEADER_LENGTH + length || length > SSL3_RT_MAX_ENCRYPTED_LENGTH then None
      else Some(Record(in_[0], Read16(in_[1..3]), in_[3..11], in_[..13], in_[13..13 + length]))
  }

  /** The two bytes the sequence number starts with. */
  function Epoch(sequence: seq<byte>): nat
    requires |sequence| == 8
  {
    Read16(sequence[..2])
  }

  lemma OneMoreByte(p: seq<byte>, k: nat)
    requires k < |p|
    ensures var b: nat := p[k]; BigEndian(p[..k + 1]) == 256 * BigEndian(p[..k]) + b
  {
    assert p[..k + 1][..k] == p[..k];
  }

  lemma EpochIsHighPart(sequence: seq<byte>)
    requires |sequence| == 8
    ensures BigEndian(sequence) / 0x1_0000_0000_0000 == Epoch(sequence)
  {
    hide BigEndian;
    var p := sequence;
    OneMoreByte(p, 0);
    OneMoreByte(p, 1);
    BigEndianNone();
    assert p[..0] == [] && BigEndian(p[..2]) == Epoch(p);
    OneMoreByte(p, 2);
    OneMoreByte(p, 3);
    OneMoreByte(p, 4);
    OneMoreByte(p, 5);
    OneMoreByte(p, 6);
    OneMoreByte(p, 7);
    assert p[..8] == p;
    var low := BigEndian(p) - 0x1_0000_0000_0000 * Epoch(p);
    assert 0 <= low < 0x1_0000_0000_0000;
  }

  lemma BigEndianNone()
    ensures BigEndian([]) == 0
  {
  }

  /** SSLAEADContext::Open: the plaintext, if the record is authentic. */
  type Aead = Record -> Option<seq<byte>>

  datatype Opened =
    | CloseNotify
    | Partial
    | Discard
    | RecordOverflow
    | ProcessAlert(plaintext: seq<byte>)
    | Success(kind: byte, plaintext: seq<byte>)

  predicate NoDuplicates<T(==)>(s: seq<T>) {
    forall i, j :: 0 <= i < j < |s| ==> s[i] != s[j]
  }

  /** The numbers accepted so far in one epoch. */
  function InEpoch(delivered: seq<seq<byte>>, epoch: nat): set<nat>
    requires forall s <- delivered :: |s| == 8
  {
    set s | s in delivered && Epoch(s) == epoch :: BigEndian(s)
  }

  lemma Member(delivered: seq<seq<byte>>, sequence: seq<byte>)
    requires (forall s <- delivered :: |s| == 8) && |sequence| == 8
    ensures sequence in delivered <==> BigEndian(sequence) in InEpoch(delivered, Epoch(sequence))
  {
    if BigEndian(sequence) in InEpoch(delivered, Epoch(sequence)) {
      var s :| s in delivered && Epoch(s) == Epoch(sequence) && BigEndian(s) == BigEndian(sequence);
      BigEndianInjective(s, sequence);
    }
  }

  lemma Appended(delivered: seq<seq<byte>>, sequence: seq<byte>)
    requires (forall s <- delivered :: |s| == 8) && |sequence| == 8
    ensures forall s <- delivered + [sequence] :: |s| == 8
    ensures InEpoch(delivered + [sequence], Epoch(sequence))
            == InEpoch(delivered, Epoch(sequence)) + {BigEndian(sequence)}
  {
    hide BigEndian;
    var d, all := delivered, delivered + [sequence];
    assert forall s :: s in all <==> s in d || s == sequence;
    assert sequence in all;
    forall n ensures n in InEpoch(all, Epoch(sequence)) <==> n in InEpoch(d, Epoch(sequence)) + {BigEndian(sequence)} {
      if n in InEpoch(d, Epoch(sequence)) {
        var s :| s in d && Epoch(s) == Epoch(sequence) && BigEndian(s) == n;
        assert s in all;
      }
    }
  }

  /** The read side of a connection. `delivered` lists the sequence numbers (epoch included) of
      the records that were accepted, over the whole life of the connection. */
  class Reader {
    var r_epoch: nat
    const bitmap: Bitmap
    var aead: Aead
    var nullCipher: bool
    var recordVersion: nat
    var closed: bool
    ghost var delivered: seq<seq<byte>>

    /** Nothing was ever accepted twice, and the window knows this epoch's numbers. */
    ghost predicate Valid()
      reads this, bitmap
    {
      && r_epoch < 0x1_0000 && NoDuplicates(delivered)
      && (forall s <- delivered :: |s| == 8 && Epoch(s) <= r_epoch)
      && bitmap.Holds(InEpoch(delivered, r_epoch))
    }

    constructor (aead: Aead)
      ensures Valid() && delivered == [] && r_epoch == 0 && fresh(bitmap)
    {
      r_epoch, this.aead, nullCipher, recordVersion, closed, delivered := 0, aead, true, 0xfeff, false, [];
      bitmap := new Bitmap();
      new;
      assert InEpoch(delivered, r_epoch) == {};
    }

    /** dtls1_set_read_state: refused while handshake data of the epoch that ends is left over. The
        16-bit epoch is not allowed to wrap around. */
    method SetReadState(aead: Aead, recordVersion: nat, unprocessed: bool) returns (ok: bool)
      requires Valid() && r_epoch + 1 < 0x1_0000
      modifies this, bitmap
      ensures Valid() && delivered == old(delivered) && ok == !unprocessed
      ensures !ok ==> unchanged(this) && unchanged(bitmap)
      ensures ok ==> r_epoch == old(r_epoch) + 1 && !nullCipher && this.recordVersion == recordVersion
      ensures ok ==>
        forall r: Record :: |r.sequence| == 8 && Epoch(r.sequence) == r_epoch && VersionOk(r.version) ==> IsNew(r)
    {
      if unprocessed { return false; }
      ok := true;
      r_epoch := r_epoch + 1;
      bitmap.Clear();
      assert InEpoch(delivered, r_epoch) == {};
      this.aead, this.recordVersion, nullCipher := aead, recordVersion, false;
    }

    ghost predicate VersionOk(version: nat)
      reads this
    {
      if nullCipher then version / 256 == DTLS1_VERSION_MAJOR else version == recordVersion
    }

    /** A record that gets past the epoch and replay checks. */
    ghost predicate IsNew(r: Record)
      requires |r.sequence| == 8 && forall s <- delivered :: |s| == 8
      reads this
    {
      && VersionOk(r.version) && Epoch(r.sequence) == r_epoch
      && r.sequence !in delivered && !Stale(InEpoch(delivered, r_epoch), BigEndian(r.sequence))
    }

    /** dtls_open_record. A record is accepted exactly when it is well-formed, of this epoch,
        never accepted before, less than 64 behind the newest one, authentic and not too long. */
    method OpenRecord(in_: seq<byte>) returns (ret: Opened, consumed: nat)
      requires Valid()
      modifies this`delivered, bitmap
      ensures Valid() && consumed <= |in_|
      ensures ret.CloseNotify? <==> closed
      ensures !closed ==> (ret.Partial? <==> in_ == [])
      ensures closed || in_ == [] ==> consumed == 0
      ensures !closed && in_ != [] ==> var r := ParseRecord(in_);
        if r.Some? && old(IsNew(r.value)) then
          consumed == |r.value.header + r.value.body| &&
          match aead(r.value) {
            case None => ret == Discard && delivered == old(delivered)
            case Some(plaintext) =>
              if |plaintext| > SSL3_RT_MAX_PLAIN_LENGTH then ret == RecordOverflow && delivered == old(delivered)
              else delivered == old(delivered) + [r.value.sequence] &&
                   ret == if r.value.kind == SSL3_RT_ALERT then ProcessAlert(plaintext)
                       else Success(r.value.kind, plaintext)
          }
        else ret == Discard && delivered == old(delivered) &&
             consumed == if r == None || !VersionOk(r.value.version) then |in_| else |r.value.header + r.value.body|
      ensures !ret.Success? && !ret.ProcessAlert? ==> delivered == old(delivered)
    {
      hide BigEndian, Epoch;
      if closed { return CloseNotify, 0; }
      if in_ == [] { return Partial, 0; }
      var parsed := ParseRecord(in_);
      if parsed == None { return Discard, |in_|; }
      var r := parsed.value;
      var version_ok := if nullCipher then r.version / 256 == DTLS1_VERSION_MAJOR else r.version == recordVersion;
      if !version_ok { return Discard, |in_|; }
      consumed := |r.header| + |r.body|;
      var epoch := Epoch(r.sequence);
      if epoch != r_epoch { return Discard, consumed; }
      var discard := bitmap.ShouldDiscard(r.sequence, InEpoch(delivered, r_epoch));
      Member(delivered, r.sequence);
      if discard { return Discard, consumed; }
      var out := aead(r);
      if out == None { return Discard, consumed; }
      if |out.value| > SSL3_RT_MAX_PLAIN_LENGTH { return RecordOverflow, consumed; }
      bitmap.Record(r.sequence, InEpoch(delivered, r_epoch));
      Appended(delivered, r.sequence);
      delivered := delivered + [r.sequence];
      if r.kind == SSL3_RT_ALERT { return ProcessAlert(out.value), consumed; }
      return Success(r.kind, out.value), consumed;
    }

    /** SSL_get_read_sequence asserts that the window's largest number carries the current epoch.
        That is so only in the first epoch or once a record of the epoch has been accepted. */
    lemma ReadSequenceHasEpoch()
      requires Valid()
      ensures r_epoch == bitmap.max_seq_num / 0x1_0000_0000_0000 <==>
        r_epoch == 0 || exists s <- delivered :: Epoch(s) == r_epoch
    {
      var accepted := InEpoch(delivered, r_epoch);
      forall s | s in delivered && Epoch(s) == r_epoch ensures BigEndian(s) in accepted
          && BigEndian(s) / 0x1_0000_0000_0000 == r_epoch {
        EpochIsHighPart(s);
      }
      if bitmap.max_seq_num > 0 {
        assert bitmap.max_seq_num in accepted;
        var s :| s in delivered && Epoch(s) == r_epoch && BigEndian(s) == bitmap.max_seq_num;
      }
    }
  }

  /** Right after the keys change, before any record of the new epoch, the window's largest number
      does not carry the epoch. */
  method AfterEpochChange(before: Aead, after: Aead) returns (r: Reader)
    ensures r.Valid() && r.r_epoch == 1 && r.r_epoch != r.bitmap.max_seq_num / 0x1_0000_0000_0000
  {
    r := new Reader(before);
    var _ := r.SetReadState(after, 0xfefd, false);
    r.ReadSequenceHasEpoch();
  }
}
