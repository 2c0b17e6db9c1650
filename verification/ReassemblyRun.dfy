/**
 Whole runs of the receiving half: records of an honest peer arrive in any order, any number of
 times, and every message that can be handed over is.
*/
module ReassemblyRun {
  import opened Bytes
  import opened Numbers
  import opened HandshakeFormat
  import opened Reassembly
  import ReassemblyMask

  /** The fragments of a record that are not beyond the window. */
  function Kept(fs: seq<Fragment>, readSeq: nat): seq<Fragment> {
    if fs == [] then [] else
      var kept := Kept(fs[..|fs| - 1], readSeq);
      var f := fs[|fs| - 1];
      if f.hdr.seq_ < readSeq + SSL_MAX_HANDSHAKE_FLIGHT then kept + [f] else kept
  }

  lemma {:induction false} KeptIs(fs: seq<Fragment>, readSeq: nat)
    ensures forall f :: f in Kept(fs, readSeq) <==> f in fs && f.hdr.seq_ < readSeq + SSL_MAX_HANDSHAKE_FLIGHT
  {
    if fs != [] {
      KeptIs(fs[..|fs| - 1], readSeq);
      assert fs == fs[..|fs| - 1] + [fs[|fs| - 1]];
    }
  }

  ghost predicate ByteCovered(fs: seq<Fragment>, s: nat, k: nat) {
    exists f <- fs :: Covers(f, s, k)
  }

  ghost predicate Named(fs: seq<Fragment>, s: nat) {
    exists f <- fs :: f.hdr.seq_ == s
  }

  /** Every byte of message `s` is in one of the fragments. */
  ghost predicate Covered(fs: seq<Fragment>, messages: seq<Message>, s: nat) {
    s < |messages| && Named(fs, s) && forall k: nat :: k < |messages[s].body| ==> ByteCovered(fs, s, k)
  }

  lemma CoveredStays(fs: seq<Fragment>, more: seq<Fragment>, messages: seq<Message>, s: nat)
    requires Covered(fs, messages, s)
    ensures Covered(fs + more, messages, s)
  {
    hide Covers;
    var f :| f in fs && f.hdr.seq_ == s;
    assert f in fs + more;
    forall k: nat | k < |messages[s].body| ensures ByteCovered(fs + more, s, k) {
      assert ByteCovered(fs, s, k);
      var g :| g in fs && Covers(g, s, k);
      assert g in fs + more;
    }
  }

  /** The receiver knows exactly the fragments that were not beyond the window. */
  ghost predicate Knows(r: Receiver, got: seq<Fragment>)
    requires |r.incoming_messages| == SSL_MAX_HANDSHAKE_FLIGHT
    reads r, r.incoming_messages
  {
    && r.PresentSet() == NamesOf(r.handshake_read_seq, got) && r.ArrivedSet() == BytesOf(r.handshake_read_seq, got)
    && forall f <- got :: f.hdr.seq_ < r.handshake_read_seq + SSL_MAX_HANDSHAKE_FLIGHT
  }

  lemma KeptNames(readSeq: nat, got: seq<Fragment>, fs: seq<Fragment>)
    ensures NamesOf(readSeq, got + Kept(fs, readSeq)) == NamesOf(readSeq, got) + NamesOf(readSeq, fs)
    ensures BytesOf(readSeq, got + Kept(fs, readSeq)) == BytesOf(readSeq, got) + BytesOf(readSeq, fs)
  {
    hide Kept;
    KeptIs(fs, readSeq);
    var kept := Kept(fs, readSeq);
    assert forall f :: f in got + kept <==> f in got || (f in fs && f.hdr.seq_ < readSeq + SSL_MAX_HANDSHAKE_FLIGHT);
  }

  /** The window moves on: nothing but the message handed over is forgotten, nothing new appears. */
  lemma WindowMoves(readSeq: nat, got: seq<Fragment>)
    requires forall f <- got :: f.hdr.seq_ < readSeq + SSL_MAX_HANDSHAKE_FLIGHT
    ensures NamesOf(readSeq + 1, got) == NamesOf(readSeq, got) - iset{readSeq}
    ensures BytesOf(readSeq + 1, got) == iset s: nat, k: nat | s != readSeq && (s, k) in BytesOf(readSeq, got) :: (s, k)
  {
  }

  /** The current message is complete exactly when all of it is covered. */
  lemma CompleteIsCovered(r: Receiver, got: seq<Fragment>, messages: seq<Message>)
    requires r.Valid() && r.Holds(messages) && Knows(r, got) && r.handshake_read_seq == |r.delivered|
    ensures r.Complete(r.handshake_read_seq) <==> Covered(got, messages, r.handshake_read_seq)
  {
    hide Covers, HmFragment.Matches;
    var n := r.handshake_read_seq;
    assert r.Present(n) <==> n in NamesOf(n, got);
    assert n in NamesOf(n, got) <==> Named(got, n);
    if r.Present(n) {
      var m := r.SlotOf(n);
      assert r.SlotHolds(messages, n % SSL_MAX_HANDSHAKE_FLIGHT);
      SlotMatches(m, messages);
      forall k: nat ensures m.Has(k) <==> ByteCovered(got, n, k) {
        assert r.Arrived(n, k) <==> (n, k) in BytesOf(n, got);
      }
      NoneMissing(m);
    }
  }

  lemma SlotMatches(m: HmFragment, messages: seq<Message>)
    requires m.Matches(messages)
    ensures m.seq_ < |messages| && m.msg_len == |messages[m.seq_].body|
  {
  }

  lemma NoneMissing(m: HmFragment)
    requires m.Valid()
    ensures m.reassembly == None <==> forall k: nat :: k < m.msg_len ==> m.Has(k)
  {
    if m.reassembly.Some? {
      var k: nat :| k < m.msg_len && !ReassemblyMask.Got(m.reassembly.value, k);
      assert !m.Has(k);
    }
  }

  /** A record of nothing but pieces of the peer's messages, none of them too long. */
  ghost predicate Honest(record: seq<byte>, messages: seq<Message>, maxMessageLen: nat) {
    && ParseRecordBody(record).Some?
    && forall f <- ParseRecordBody(record).value :: IsSlice(messages, f) && f.hdr.msg_len <= maxMessageLen
  }

  /** What a run keeps: what was handed over are the first messages, each of them covered. */
  ghost predicate Running(r: Receiver, got: seq<Fragment>, messages: seq<Message>)
    reads r, r.incoming_messages
  {
    && r.Valid() && r.Holds(messages) && Knows(r, got) && r.handshake_read_seq == |r.delivered| && r.r_epoch == 0
    && forall s: nat :: s < |r.delivered| ==> Covered(got, messages, s)
  }

  /** The first message that is not covered. */
  ghost function ReadyFrom(fs: seq<Fragment>, messages: seq<Message>, s: nat): nat
    requires s <= |messages|
    decreases |messages| - s
  {
    if Covered(fs, messages, s) then ReadyFrom(fs, messages, s + 1) else s
  }

  /** How many messages can be handed over once exactly the fragments `fs` are known. */
  ghost function Ready(fs: seq<Fragment>, messages: seq<Message>): nat {
    ReadyFrom(fs, messages, 0)
  }

  lemma {:induction false} ReadyFromIs(fs: seq<Fragment>, messages: seq<Message>, s: nat, n: nat)
    requires s <= n <= |messages| && !Covered(fs, messages, n)
    requires forall i: nat :: s <= i < n ==> Covered(fs, messages, i)
    ensures ReadyFrom(fs, messages, s) == n
    decreases n - s
  {
    hide Covered;
    if s < n { ReadyFromIs(fs, messages, s + 1, n); }
  }

  lemma {:induction false} ReadyFromCovers(fs: seq<Fragment>, messages: seq<Message>, s: nat)
    requires s <= |messages|
    ensures var n := ReadyFrom(fs, messages, s);
      s <= n <= |messages| && !Covered(fs, messages, n) && forall i: nat :: s <= i < n ==> Covered(fs, messages, i)
    decreases |messages| - s
  {
    if Covered(fs, messages, s) { ReadyFromCovers(fs, messages, s + 1); }
  }

  /** The same fragments, however often and in whatever order, make the same messages ready. */
  lemma SameReady(fs: seq<Fragment>, gs: seq<Fragment>, messages: seq<Message>)
    requires forall f :: f in fs <==> f in gs
    ensures Ready(fs, messages) == Ready(gs, messages)
  {
    forall s: nat ensures Covered(fs, messages, s) <==> Covered(gs, messages, s) {
      assert forall k: nat :: ByteCovered(fs, s, k) <==> ByteCovered(gs, s, k);
    }
    ReadyFromCovers(gs, messages, 0);
    hide Covered;
    ReadyFromIs(fs, messages, 0, Ready(gs, messages));
  }

  /** The caller takes every message that is ready. */
  method HandOver(r: Receiver, ghost got: seq<Fragment>, ghost messages: seq<Message>)
    requires Running(r, got, messages) && !r.has_message
    modifies r
    ensures Running(r, got, messages) && !r.has_message && r.delivered <= messages
    ensures |r.delivered| == Ready(got, messages) && r.Repr() <= old(r.Repr())
  {
    hide NamesOf, BytesOf, Covered, ParseFragment, HmFragment.Valid, HmFragment.Matches;
    var out := r.GetMessage(messages);
    while out.Some?
      invariant Running(r, got, messages) && r.has_message == out.Some? && r.Repr() <= old(r.Repr())
      invariant out.Some? <==> r.Complete(r.handshake_read_seq)
      decreases out.Some?, |messages| - |r.delivered|
    {
      CompleteIsCovered(r, got, messages);
      WindowMoves(r.handshake_read_seq, got);
      r.NextMessage(messages);
      out := r.GetMessage(messages);
    }
    CompleteIsCovered(r, got, messages);
    ReadyFromIs(got, messages, 0, |r.delivered|);
  }

  /** The fragments of a record. */
  function Fragments(record: seq<byte>): seq<Fragment> {
    var fs := ParseRecordBody(record); if fs == None then [] else fs.value
  }

  /** A fragment just past the window: what makes a call fail. */
  ghost predicate Fails(known: seq<Fragment>, record: seq<byte>, messages: seq<Message>) {
    exists f <- Fragments(record) :: f.hdr.seq_ == Ready(known, messages) + SSL_MAX_HANDSHAKE_FLIGHT
  }

  /** A record comes in when all that is `ready` has been handed over: it is known afterwards,
      except for fragments beyond the window. */
  ghost predicate Learns(known: seq<Fragment>, record: seq<byte>, now: seq<Fragment>, messages: seq<Message>) {
    && !Fails(known, record, messages)
    && forall f :: f in now <==>
         f in known || (f in Fragments(record) && f.hdr.seq_ < Ready(known, messages) + SSL_MAX_HANDSHAKE_FLIGHT)
  }

  lemma HonestIsWellFormed(r: Receiver, record: seq<byte>, messages: seq<Message>)
    requires Honest(record, messages, r.maxMessageLen)
    ensures forall f <- ParseRecordBody(record).value :: IsSlice(messages, f) && !r.Malformed(f)
  {
  }

  /** A record comes in. The call fails exactly for a fragment just past the window. */
  method ReceiveRecord(r: Receiver, record: seq<byte>, ghost got: seq<Fragment>, ghost messages: seq<Message>)
    returns (ok: bool, ghost now: seq<Fragment>)
    requires Running(r, got, messages) && !r.has_message && Honest(record, messages, r.maxMessageLen)
    requires |r.delivered| == Ready(got, messages)
    modifies r`incoming_messages, r.Repr()
    ensures r.Valid() && r.Holds(messages) && fresh(r.Repr() - old(r.Repr()))
    ensures ok <==> !Fails(got, record, messages)
    ensures if ok then Running(r, now, messages) && Learns(got, record, now, messages) else now == got
  {
    hide NamesOf, BytesOf, Covered, IsSlice, ParseRecordBody, EncodeHeader, ReassemblyMask.Padded, ReassemblyMask.Got,
      Kept, ReadyFrom;
    ghost var fs := ParseRecordBody(record).value;
    HonestIsWellFormed(r, record, messages);
    ok := r.OpenHandshakeRecord(record, messages);
    now := got;
    if ok {
      now := got + Kept(fs, r.handshake_read_seq);
      KeptIs(fs, r.handshake_read_seq);
      KeptNames(r.handshake_read_seq, got, fs);
      forall s: nat | s < |r.delivered| ensures Covered(now, messages, s) {
        CoveredStays(got, Kept(fs, r.handshake_read_seq), messages, s);
      }
    }
  }

  /** A receiver to which nothing has come in. */
  method Fresh(maxMessageLen: nat, ghost messages: seq<Message>) returns (r: Receiver)
    requires |messages| < U16
    ensures fresh(r) && fresh(r.Repr()) && r.maxMessageLen == maxMessageLen && Running(r, [], messages)
            && !r.has_message && r.delivered == []
  {
    r := new Receiver(maxMessageLen);
    NoNamesOrBytes(0);
    assert r.Holds(messages);
  }

  /** A whole run. `known` is what is known before each record and in the end: nothing at first,
      and each record adds all of its fragments but those beyond the window as it then stands. What
      has been handed over are exactly the messages that makes ready; and the run ends early exactly
      at a record with a fragment just past the window. */
  method Receive(records: seq<seq<byte>>, maxMessageLen: nat, ghost messages: seq<Message>)
    returns (r: Receiver, taken: nat, ghost known: seq<seq<Fragment>>)
    requires |messages| < U16 && forall p <- records :: Honest(p, messages, maxMessageLen)
    ensures r.Valid() && taken <= |records| && |known| == taken + 1 && known[0] == []
    ensures forall j :: 0 <= j < taken ==> Learns(known[j], records[j], known[j + 1], messages)
    ensures taken < |records| ==> Fails(known[taken], records[taken], messages)
    ensures Ready(known[taken], messages) <= |messages| && r.delivered == messages[..Ready(known[taken], messages)]
  {
    hide Covered, IsSlice, ParseRecordBody, Knows, Honest, Learns, Fails, ReadyFrom;
    r := Fresh(maxMessageLen, messages);
    ghost var got := [];
    HandOver(r, got, messages);
    known, taken := [got], 0;
    while taken < |records|
      invariant taken <= |records| && fresh(r) && fresh(r.Repr()) && r.maxMessageLen == maxMessageLen
      invariant |known| == taken + 1 && known[0] == [] && known[taken] == got
      invariant forall j :: 0 <= j < taken ==> Learns(known[j], records[j], known[j + 1], messages)
      invariant Running(r, got, messages) && !r.has_message && r.delivered <= messages
      invariant |r.delivered| == Ready(got, messages)
    {
      var ok;
      ghost var now;
      ok, now := ReceiveRecord(r, records[taken], got, messages);
      if !ok { return; }
      got, known, taken := now, known + [now], taken + 1;
      HandOver(r, got, messages);
    }
  }

  // ---------------------------------------------------------------- a peer that waits

  /** All the fragments of the records. */
  function AllFragments(records: seq<seq<byte>>): seq<Fragment> {
    if records == [] then [] else AllFragments(records[..|records| - 1]) + Fragments(records[|records| - 1])
  }

  /** No record runs ahead of the window, as it stands once everything before it has come in. */
  ghost predicate Paced(records: seq<seq<byte>>, messages: seq<Message>) {
    forall j :: 0 <= j < |records| ==>
      forall f <- Fragments(records[j]) ::
        f.hdr.seq_ < Ready(AllFragments(records[..j]), messages) + SSL_MAX_HANDSHAKE_FLIGHT
  }

  /** Then nothing is lost. */
  lemma {:induction false} NothingLost(records: seq<seq<byte>>, messages: seq<Message>, known: seq<seq<Fragment>>,
      n: nat)
    requires Paced(records, messages) && n < |known| && n <= |records| && known[0] == []
    requires forall j :: 0 <= j < n ==> Learns(known[j], records[j], known[j + 1], messages)
    ensures forall f :: f in known[n] <==> f in AllFragments(records[..n])
    ensures n < |records| ==> !Fails(known[n], records[n], messages)
  {
    hide Fragments, Ready;
    if n > 0 {
      NothingLost(records, messages, known, n - 1);
      SameReady(known[n - 1], AllFragments(records[..n - 1]), messages);
      assert Learns(known[n - 1], records[n - 1], known[n], messages);
      assert records[..n][..n - 1] == records[..n - 1];
    }
    SameReady(known[n], AllFragments(records[..n]), messages);
  }

  /** A peer that does not run ahead of the window: all of its messages whose bytes are in the
      records are handed over, up to the first that has bytes missing, however long the run. */
  method ReceivePaced(records: seq<seq<byte>>, maxMessageLen: nat, ghost messages: seq<Message>) returns (r: Receiver)
    requires |messages| < U16 && (forall p <- records :: Honest(p, messages, maxMessageLen))
    requires Paced(records, messages)
    ensures r.Valid() && Ready(AllFragments(records), messages) <= |messages|
    ensures r.delivered == messages[..Ready(AllFragments(records), messages)]
  {
    hide Honest, Learns, Fails, Paced, Ready, AllFragments;
    var taken;
    ghost var known;
    r, taken, known := Receive(records, maxMessageLen, messages);
    NothingLost(records, messages, known, taken);
    assert records[..taken] == records;
    SameReady(known[taken], AllFragments(records), messages);
  }

  /** A flight of no more messages than the window holds comes out whole, whatever the order of its
      records, however they are cut and however often they are repeated. */
  method ReceiveFlight(records: seq<seq<byte>>, maxMessageLen: nat, ghost messages: seq<Message>) returns (r: Receiver)
    requires |messages| <= SSL_MAX_HANDSHAKE_FLIGHT && forall p <- records :: Honest(p, messages, maxMessageLen)
    requires forall s: nat :: s < |messages| ==> Covered(AllFragments(records), messages, s)
    ensures r.Valid() && r.delivered == messages
  {
    hide Covered;
    FlightIsPaced(records, messages, maxMessageLen);
    r := ReceivePaced(records, maxMessageLen, messages);
    assert !Covered(AllFragments(records), messages, |messages|) by { NotCovered(AllFragments(records), messages); }
    ReadyFromIs(AllFragments(records), messages, 0, |messages|);
  }

  lemma NotCovered(fs: seq<Fragment>, messages: seq<Message>)
    ensures !Covered(fs, messages, |messages|)
  {
  }

  lemma FlightIsPaced(records: seq<seq<byte>>, messages: seq<Message>, maxMessageLen: nat)
    requires |messages| <= SSL_MAX_HANDSHAKE_FLIGHT && forall p <- records :: Honest(p, messages, maxMessageLen)
    ensures Paced(records, messages)
  {
    hide ParseRecordBody, Ready;
    forall j, f | 0 <= j < |records| && f in Fragments(records[j]) ensures f.hdr.seq_ < SSL_MAX_HANDSHAKE_FLIGHT {
      assert Honest(records[j], messages, maxMessageLen);
    }
  }

  // ---------------------------------------------------------------- just past the window

  function EmptyMessages(n: nat): (messages: seq<Message>)
    ensures |messages| == n && forall i :: 0 <= i < n ==> messages[i] == Message(1, [])
  {
    seq(n, _ => Message(1, []))
  }

  /** A new receiver is given the one fragment of an empty message numbered `s`, out of the window.
      It ignores all such fragments but the first beyond the window: that one makes it fail. */
  method FragmentPastWindow(s: nat) returns (ok: bool)
    requires SSL_MAX_HANDSHAKE_FLIGHT <= s < U16 - 1
    ensures ok <==> s != SSL_MAX_HANDSHAKE_FLIGHT
  {
    hide EncodeHeader, ParseFragment, NamesOf, BytesOf;
    var f := Fragment(WholeHeader(1, s, 0), []);
    FragmentRoundTrip(f, []);
    var record := EncodeFragment(f);
    assert record + [] == record && ParseRecordBody([]) == Some([]) && [f] + [] == [f];
    assert ParseFragment(record) == Some((f, [])) && record != [] && ParseRecordBody(record) == Some([f]);
    ghost var messages := EmptyMessages(s + 1);
    assert IsSlice(messages, f);
    var r := Fresh(0, messages);
    assert r.handshake_read_seq == 0;
    ok := r.OpenHandshakeRecord(record, messages);
  }
}
