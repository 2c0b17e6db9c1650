/** The two halves of the handshake transport fit together. */
module HandshakeTransport {
  import opened Bytes
  import opened Numbers
  import opened HandshakeFormat
  import opened Flight
  import opened Reassembly
  import opened ReassemblyRun

  /** Message number `s`, as the sender queues it. */
  predicate Queued(messages: seq<Message>, s: nat, m: Outgoing) {
    && s < |messages| && Fits(WholeHeader(messages[s].kind, s, |messages[s].body|)) && !m.is_ccs
    && m.data == EncodeFragment(Fragment(WholeHeader(messages[s].kind, s, |messages[s].body|), messages[s].body))
  }

  lemma QueuedIsWhole(messages: seq<Message>, s: nat, m: Outgoing)
    requires Queued(messages, s, m)
    ensures Whole(m) == Some(Fragment(WholeHeader(messages[s].kind, s, |messages[s].body|), messages[s].body))
  {
    hide ParseFragment, EncodeFragment;
    var f := Fragment(WholeHeader(messages[s].kind, s, |messages[s].body|), messages[s].body);
    FragmentRoundTrip(f, []);
    assert EncodeFragment(f) + [] == m.data;
  }

  /** Every handshake record the sender makes is, to the receiver, one well-formed piece of the
      message it came from: what the receiver assumes of an honest peer. */
  lemma SentIsSlice(outgoing: seq<Outgoing>, p: Position, r: Sealed, messages: seq<Message>, s: nat)
    requires p.written < |outgoing| && Queued(messages, s, outgoing[p.written]) && Next(outgoing, p, r).Some?
    ensures r.kind == SSL3_RT_HANDSHAKE && |r.payload| >= DTLS1_HM_HEADER_LENGTH
    ensures var n := |r.payload| - DTLS1_HM_HEADER_LENGTH;
      && p.offset + n <= |messages[s].body|
      && var f :=
         Fragment(Header(messages[s].kind, |messages[s].body|, s, p.offset, n),
             messages[s].body[p.offset..p.offset + n]);
         IsSlice(messages, f) && ParseRecordBody(r.payload) == Some([f])
  {
    hide ParseFragment, EncodeHeader, Whole;
    QueuedIsWhole(messages, s, outgoing[p.written]);
    var n := |r.payload| - DTLS1_HM_HEADER_LENGTH;
    var f :=
        Fragment(Header(messages[s].kind, |messages[s].body|, s, p.offset, n),
            messages[s].body[p.offset..p.offset + n]);
    assert f == Piece(Whole(outgoing[p.written]).value, p.offset, n);
    FragmentRoundTrip(f, []);
    assert r.payload + [] == r.payload && ParseRecordBody([]) == Some([]) && [f] + [] == [f];
    assert ParseFragment(r.payload) == Some((f, []));
  }

  // ---------------------------------------------------------------- a flight over the network

  /** A flight of handshake messages, numbered from 0. */
  predicate QueuedFlight(messages: seq<Message>, outgoing: seq<Outgoing>) {
    |outgoing| == |messages| && forall s :: 0 <= s < |messages| ==> Queued(messages, s, outgoing[s])
  }

  /** What the records carry, as the receiver gets it. */
  function Payloads(records: seq<Sealed>): seq<seq<byte>> {
    seq(|records|, i requires 0 <= i < |records| => records[i].payload)
  }

  /** Every record got through at least once, and nothing else did. */
  predicate GotThrough(records: seq<Sealed>, arrived: seq<seq<byte>>) {
    && (forall r <- records :: r.payload in arrived)
    && forall p <- arrived :: exists r <- records :: r.payload == p
  }

  /** The part of message `s` before position `p` of the flight. */
  ghost predicate CoveredBefore(fs: seq<Fragment>, messages: seq<Message>, p: Position, s: nat)
    requires s < |messages|
  {
    && (s < p.written ==> Covered(fs, messages, s))
    && (s == p.written ==> forall k: nat :: k < p.offset ==> ByteCovered(fs, s, k))
  }

  lemma {:induction false} InAllFragments(records: seq<seq<byte>>, f: Fragment)
    ensures f in AllFragments(records) <==> exists p <- records :: f in Fragments(p)
  {
    hide Fragments;
    if records != [] {
      var n := |records| - 1;
      InAllFragments(records[..n], f);
      assert records == records[..n] + [records[n]];
    }
  }

  /** The record that takes the flight from `p` on covers what lies between. */
  lemma OneMorePiece(fs: seq<Fragment>, outgoing: seq<Outgoing>, messages: seq<Message>, p: Position, r: Sealed,
      more: seq<Fragment>)
    requires QueuedFlight(messages, outgoing) && Next(outgoing, p, r).Some? && more == fs + Fragments(r.payload)
    requires forall s: nat :: s < |messages| ==> CoveredBefore(fs, messages, p, s)
    ensures forall s: nat :: s < |messages| ==> CoveredBefore(more, messages, Next(outgoing, p, r).value, s)
  {
    hide Whole, EncodeFragment, ParseRecordBody, Covered;
    var q := Next(outgoing, p, r).value;
    SentIsSlice(outgoing, p, r, messages, p.written);
    QueuedIsWhole(messages, p.written, outgoing[p.written]);
    var f := Fragments(r.payload)[0];
    assert f in more;
    forall s: nat | s < |messages| ensures CoveredBefore(more, messages, q, s) {
      assert CoveredBefore(fs, messages, p, s);
      if s < p.written { CoveredStays(fs, Fragments(r.payload), messages, s); }
      if s == p.written {
        var end := p.offset + |f.body|;
        forall k: nat | k < end ensures ByteCovered(more, s, k) {
          if k < p.offset {
            assert ByteCovered(fs, s, k);
          } else {
            assert Covers(f, s, k);
          }
        }
        if s < q.written { NowCovered(more, messages, s, f); }
      }
    }
  }

  lemma NowCovered(fs: seq<Fragment>, messages: seq<Message>, s: nat, f: Fragment)
    requires s < |messages| && f in fs && f.hdr.seq_ == s
    requires forall k: nat :: k < |messages[s].body| ==> ByteCovered(fs, s, k)
    ensures Covered(fs, messages, s)
  {
  }

  /** Records that lead through the flight cover it. */
  lemma {:induction false} RecordsCover(outgoing: seq<Outgoing>, records: seq<Sealed>, messages: seq<Message>)
    requires QueuedFlight(messages, outgoing) && After(outgoing, Position(0, 0), records).Some?
    ensures forall s: nat :: s < |messages| ==>
      CoveredBefore(AllFragments(Payloads(records)), messages, After(outgoing, Position(0, 0), records).value, s)
    ensures forall r <- records ::
      ParseRecordBody(r.payload).Some? && forall f <- Fragments(r.payload) :: IsSlice(messages, f)
  {
    hide QueuedFlight, Next, Covered, ParseRecordBody, IsSlice;
    if records != [] {
      var n := |records| - 1;
      RecordsCover(outgoing, records[..n], messages);
      var p := After(outgoing, Position(0, 0), records[..n]).value;
      assert Payloads(records)[..n] == Payloads(records[..n]);
      OneMorePiece(AllFragments(Payloads(records[..n])), outgoing, messages, p, records[n],
        AllFragments(Payloads(records)));
      OnePiece(outgoing, messages, p, records[n]);
      assert records == records[..n] + [records[n]];
    }
  }

  lemma OnePiece(outgoing: seq<Outgoing>, messages: seq<Message>, p: Position, r: Sealed)
    requires QueuedFlight(messages, outgoing) && Next(outgoing, p, r).Some?
    ensures ParseRecordBody(r.payload).Some? && forall f <- Fragments(r.payload) :: IsSlice(messages, f)
  {
    hide Whole, EncodeFragment, ParseRecordBody;
    SentIsSlice(outgoing, p, r, messages, p.written);
  }

  /** The sender has sent its flight, in whatever packets and with whatever failed writes; the network
      loses some copies, repeats and reorders others, but lets every record through at least once.
      Then the receiver hands over the sender's messages, in order. */
  method ReceiveSent(ghost sender: Sender, ghost transport: Transport, ghost first: nat, arrived: seq<seq<byte>>,
      maxMessageLen: nat, ghost messages: seq<Message>)
    returns (r: Receiver)
    requires QueuedFlight(messages, sender.outgoing_messages) && |messages| <= SSL_MAX_HANDSHAKE_FLIGHT
    requires sender.SentSince(transport, first, Position(0, 0), []) && sender.Here() == Position(|messages|, 0)
    requires GotThrough(Flat(transport.packets[first..]), arrived)
    requires forall m <- messages :: |m.body| <= maxMessageLen
    ensures r.Valid() && r.delivered == messages
  {
    hide QueuedFlight, After, Covered, ParseRecordBody;
    ghost var records := Flat(transport.packets[first..]);
    assert records + [] == records;
    RecordsCover(sender.outgoing_messages, records, messages);
    forall s: nat | s < |messages| ensures Covered(AllFragments(Payloads(records)), messages, s) {
      assert CoveredBefore(AllFragments(Payloads(records)), messages, Position(|messages|, 0), s);
    }
    ArrivedCovers(records, arrived, messages);
    ArrivedIsHonest(records, arrived, messages, maxMessageLen);
    r := ReceiveFlight(arrived, maxMessageLen, messages);
  }

  lemma ArrivedCovers(records: seq<Sealed>, arrived: seq<seq<byte>>, messages: seq<Message>)
    requires GotThrough(records, arrived)
    requires forall s: nat :: s < |messages| ==> Covered(AllFragments(Payloads(records)), messages, s)
    ensures forall s: nat :: s < |messages| ==> Covered(AllFragments(arrived), messages, s)
  {
    hide Covers, Fragments;
    var sent, all := AllFragments(Payloads(records)), AllFragments(arrived);
    forall f | f in sent ensures f in all {
      InAllFragments(Payloads(records), f);
      var i :| 0 <= i < |records| && f in Fragments(records[i].payload);
      assert records[i] in records;
      InAllFragments(arrived, f);
    }
    forall s: nat | s < |messages| ensures Covered(all, messages, s) {
      assert Covered(sent, messages, s);
      var f :| f in sent && f.hdr.seq_ == s;
      assert f in all;
      forall k: nat | k < |messages[s].body| ensures ByteCovered(all, s, k) {
        assert ByteCovered(sent, s, k);
        var g :| g in sent && Covers(g, s, k);
        assert g in all;
      }
    }
  }

  lemma ArrivedIsHonest(records: seq<Sealed>, arrived: seq<seq<byte>>, messages: seq<Message>, maxMessageLen: nat)
    requires GotThrough(records, arrived) && forall m <- messages :: |m.body| <= maxMessageLen
    requires forall r <- records ::
      ParseRecordBody(r.payload).Some? && forall f <- Fragments(r.payload) :: IsSlice(messages, f)
    ensures forall p <- arrived :: Honest(p, messages, maxMessageLen)
  {
    hide ParseRecordBody;
    forall p | p in arrived ensures Honest(p, messages, maxMessageLen) {
      var r :| r in records && r.payload == p;
      forall f | f in ParseRecordBody(p).value ensures IsSlice(messages, f) && f.hdr.msg_len <= maxMessageLen {
        assert f in Fragments(p);
        assert messages[f.hdr.seq_] in messages;
      }
    }
  }

  /** What the receiver hands over as the raw message is byte for byte what the sender queued, so
      that both sides hash the same transcript. */
  lemma SameTranscript(messages: seq<Message>, s: nat, m: Outgoing, d: Delivery)
    requires Queued(messages, s, m) && d.message == messages[s]
    requires ParseFragment(d.raw) == Some((Fragment(WholeHeader(d.message.kind, s, |d.message.body|), d.message.body),
      []))
    ensures d.raw == m.data
  {
    hide EncodeHeader;
    var h := WholeHeader(messages[s].kind, s, |messages[s].body|);
    HeaderSize(h);
    HeaderUnread(d.raw[..DTLS1_HM_HEADER_LENGTH], d.raw[DTLS1_HM_HEADER_LENGTH..]);
    assert d.raw[..DTLS1_HM_HEADER_LENGTH] + d.raw[DTLS1_HM_HEADER_LENGTH..] == d.raw;
  }

  lemma Unread24(p: seq<byte>)
    requires |p| == 3
    ensures Read24(p) < U24 && Bytes24(Read24(p)) == p
  {
    var a: nat, b: nat, c: nat := p[0], p[1], p[2];
    Digits(256 * a + b, c);
    Digits(a, b);
    Thousands(a, b, c);
  }

  lemma Digits(high: nat, low: nat)
    requires low < 256
    ensures (256 * high + low) / 256 == high && (256 * high + low) % 256 == low
  {
  }

  lemma Thousands(a: nat, b: nat, c: nat)
    requires b < 256 && c < 256
    ensures (0x1_0000 * a + 256 * b + c) / 0x1_0000 == a
  {
  }

  /** Encoding undoes parsing: a header has only one encoding. */
  lemma HeaderUnread(p: seq<byte>, more: seq<byte>)
    requires |p| == DTLS1_HM_HEADER_LENGTH
    ensures EncodeHeader(ReadHeader(p + more)) == p
  {
    hide Read24, Bytes24;
    var q := p + more;
    assert q[1..4] == p[1..4] && q[4..6] == p[4..6] && q[6..9] == p[6..9] && q[9..12] == p[9..12];
    Unread24(p[1..4]);
    Unread24(p[6..9]);
    Unread24(p[9..12]);
    assert p == [p[0]] + p[1..4] + p[4..6] + p[6..9] + p[9..12];
  }
}
