/**
 The receiving half of d1_both.cc: fragments of handshake messages arrive in any order, more
 than once and overlapping, and come out as whole messages, in order, once each.
*/
module Reassembly {
  import opened Bytes
  import opened Numbers
  import opened HandshakeFormat
  import opened ReassemblyMask

  const SSL_MAX_HANDSHAKE_FLIGHT := 7

  function WholeHeader(kind: byte, seq_: nat, msg_len: nat): Header {
    Header(kind, msg_len, seq_, 0, msg_len)
  }

  /** hm_fragment: a message, possibly not yet complete. */
  class HmFragment {
    const kind: byte
    const seq_: nat
    const msg_len: nat
    var data: seq<byte>
    var reassembly: Option<seq<bv8>>

    /** The mask is dropped exactly when no byte is missing. */
    ghost predicate Valid()
      reads this
    {
      && Fits(WholeHeader(kind, seq_, msg_len)) && |data| == DTLS1_HM_HEADER_LENGTH + msg_len
      && data[..DTLS1_HM_HEADER_LENGTH] == EncodeHeader(WholeHeader(kind, seq_, msg_len))
      && (reassembly.Some? ==>
         Padded(reassembly.value, msg_len) && exists k: nat :: k < msg_len && !Got(reassembly.value, k))
    }

    lemma Bounds()
      requires Valid()
      ensures seq_ < U16 && |data| == DTLS1_HM_HEADER_LENGTH + msg_len
    {
    }

    /** Byte `k` of the body has arrived. */
    ghost predicate Has(k: nat)
      reads this
    {
      k < msg_len && (reassembly.None? || Got(reassembly.value, k))
    }

    function Body(): seq<byte>
      requires |data| >= DTLS1_HM_HEADER_LENGTH
      reads this
    {
      data[DTLS1_HM_HEADER_LENGTH..]
    }

    /** What has arrived of it is right, if the peer means `messages`. */
    ghost predicate Matches(messages: seq<Message>)
      reads this
    {
      && seq_ < |messages| && kind == messages[seq_].kind && msg_len == |messages[seq_].body|
      && |data| == DTLS1_HM_HEADER_LENGTH + msg_len
      && forall k: nat :: Has(k) ==> Body()[k] == messages[seq_].body[k]
    }

    /** dtls1_hm_fragment_new. */
    constructor (hdr: Header)
      requires Fits(hdr)
      ensures Valid() && kind == hdr.kind && seq_ == hdr.seq_ && msg_len == hdr.msg_len
      ensures forall k: nat :: !Has(k)
    {
      kind, seq_, msg_len := hdr.kind, hdr.seq_, hdr.msg_len;
      var header := EncodeHeader(WholeHeader(hdr.kind, hdr.seq_, hdr.msg_len));
      data := header + seq(hdr.msg_len, _ => 0);
      reassembly := if hdr.msg_len > 0 then Some(NoBits(hdr.msg_len)) else None;
      new;
      if reassembly.Some? { assert !Got(reassembly.value, 0); }
    }

    /** dtls1_hm_fragment_mark. */
    method Mark(start: nat, end: nat)
      requires Valid() && reassembly.Some? && start <= end <= msg_len
      modifies this`reassembly
      ensures Valid()
      ensures forall k: nat :: Has(k) <==> old(Has(k)) || start <= k < end
      ensures reassembly == None <==> forall k: nat :: k < msg_len ==> Has(k)
    {
      hide Got;
      ghost var missing: nat :| missing < msg_len && !Got(reassembly.value, missing);
      assert !Has(missing);
      if start == end { return; }
      var mask := MarkRange(reassembly.value, start, end);
      reassembly := Some(mask);
      var complete := AllMarked(mask, msg_len);
      if !complete {
        ghost var k: nat :| k < msg_len && !Got(mask, k);
        assert !Has(k);
        return;
      }
      reassembly := None;
    }

    /** The copy into the message and the marking, as in dtls1_open_handshake. */
    method Store(f: Fragment)
      requires Valid() && reassembly.Some? && f.hdr.frag_len == |f.body| && f.hdr.frag_off + |f.body| <= msg_len
      modifies this
      ensures Valid()
      ensures forall k: nat :: Has(k) <==> old(Has(k)) || f.hdr.frag_off <= k < f.hdr.frag_off + |f.body|
      ensures Body() == old(Body())[..f.hdr.frag_off] + f.body + old(Body())[f.hdr.frag_off + |f.body|..]
      ensures forall messages :: old(Matches(messages)) && IsSlice(messages, f) && f.hdr.seq_ == seq_ ==>
        Matches(messages)
    {
      hide Got, EncodeHeader;
      var at := DTLS1_HM_HEADER_LENGTH + f.hdr.frag_off;
      data := data[..at] + f.body + data[at + |f.body|..];
      Mark(f.hdr.frag_off, f.hdr.frag_off + f.hdr.frag_len);
    }
  }

  // ---------------------------------------------------------------- the receiver

  const SSL3_RT_APPLICATION_DATA: byte := 23

  datatype HandshakeResult = Success | Discard | Error

  datatype Handled = Done | Ignored | Failed

  datatype Delivery = Delivery(message: Message, raw: seq<byte>)

  /** Byte `k` of message `s` is in the fragment. */
  predicate Covers(f: Fragment, s: nat, k: nat) {
    f.hdr.seq_ == s && f.hdr.frag_off <= k < f.hdr.frag_off + |f.body|
  }

  /** What makes the code fail on a fragment that is nothing but a piece of a real message: in
      the encrypted epoch any message but the next, and otherwise one message number, just past
      the window, which is neither stored nor ignored. */
  predicate RejectedBy(r_epoch: nat, readSeq: nat, f: Fragment) {
    (r_epoch == 1 && f.hdr.seq_ != readSeq) || f.hdr.seq_ == readSeq + SSL_MAX_HANDSHAKE_FLIGHT
  }

  predicate Within(readSeq: nat, s: nat) {
    readSeq <= s < readSeq + SSL_MAX_HANDSHAKE_FLIGHT
  }

  /** The messages of the window that `fs` has something of, and the bytes of them it has. */
  ghost function NamesOf(readSeq: nat, fs: seq<Fragment>): iset<nat> {
    iset s: nat | Within(readSeq, s) && exists f <- fs :: f.hdr.seq_ == s
  }

  ghost function BytesOf(readSeq: nat, fs: seq<Fragment>): iset<(nat, nat)> {
    iset s: nat, k: nat | Within(readSeq, s) && exists f <- fs :: Covers(f, s, k) :: (s, k)
  }

  lemma NamesAndBytesAdd(readSeq: nat, fs: seq<Fragment>, f: Fragment)
    ensures NamesOf(readSeq, fs + [f]) == NamesOf(readSeq, fs) + NamesOf(readSeq, [f])
    ensures BytesOf(readSeq, fs + [f]) == BytesOf(readSeq, fs) + BytesOf(readSeq, [f])
  {
    hide Covers, Within;
    assert forall g :: g in fs + [f] <==> g in fs || g in [f];
  }

  lemma NoNamesOrBytes(readSeq: nat)
    ensures NamesOf(readSeq, []) == iset{} && BytesOf(readSeq, []) == iset{}
  {
  }

  predicate WellFormed(f: Fragment) {
    Fits(f.hdr) && f.hdr.frag_len == |f.body|
  }

  /** The fragments read so far and those still to be read. */
  function Join(done: seq<Fragment>, rest: Option<seq<Fragment>>): Option<seq<Fragment>> {
    if rest == None then None else Some(done + rest.value)
  }

  lemma JoinStep(done: seq<Fragment>, p: seq<byte>)
    requires p != []
    ensures var r := ParseFragment(p);
      Join(done, ParseRecordBody(p)) == if r == None then None else Join(done + [r.value.0], ParseRecordBody(r.value.1))
  {
    hide ParseFragment;
    var r := ParseFragment(p);
    if r.Some? && ParseRecordBody(r.value.1).Some? {
      var rest := ParseRecordBody(r.value.1).value;
      assert done + ([r.value.0] + rest) == (done + [r.value.0]) + rest;
    }
  }

  lemma JoinEnds(done: seq<Fragment>)
    ensures Join([], Some(done)) == Some(done) && Join([], None) == None
            && Join(done, ParseRecordBody([])) == Some(done)
  {
    assert [] + done == done && done + [] == done;
  }

  lemma JoinPrefix(done: seq<Fragment>, rest: Option<seq<Fragment>>, f: Fragment, all: seq<Fragment>)
    requires Join(done, rest) == Some(all) && f in done
    ensures f in all
  {
  }

  /** DTLS1_STATE, its receiving fields. `delivered` lists the messages handed over so far. */
  class Receiver {
    var incoming_messages: seq<HmFragment?>
    var handshake_read_seq: nat
    var has_message: bool
    var r_epoch: nat
    var nullCipher: bool
    var has_change_cipher_spec: bool
    const maxMessageLen: nat
    ghost var delivered: seq<Message>

    function SlotOf(s: nat): HmFragment?
      requires |incoming_messages| == SSL_MAX_HANDSHAKE_FLIGHT
      reads this`incoming_messages
    {
      incoming_messages[s % SSL_MAX_HANDSHAKE_FLIGHT]
    }

    predicate InWindow(s: nat)
      reads this`handshake_read_seq
    {
      Within(handshake_read_seq, s)
    }

    /** The messages in the slots. */
    ghost function Repr(): set<object>
      reads this`incoming_messages
    {
      set m: HmFragment | m in incoming_messages
    }

    /** Every occupied slot holds a message of the window, in its own slot. */
    ghost predicate Valid()
      reads this, incoming_messages
    {
      && |incoming_messages| == SSL_MAX_HANDSHAKE_FLIGHT && handshake_read_seq == |delivered| % U16
      && (forall i :: 0 <= i < SSL_MAX_HANDSHAKE_FLIGHT && incoming_messages[i] != null ==>
            var m := incoming_messages[i]; m.Valid() && m.seq_ % SSL_MAX_HANDSHAKE_FLIGHT == i && InWindow(m.seq_))
      && (has_message ==> Complete(handshake_read_seq))
    }

    ghost predicate Present(s: nat)
      requires |incoming_messages| == SSL_MAX_HANDSHAKE_FLIGHT
      reads this`incoming_messages, incoming_messages
    {
      SlotOf(s) != null && SlotOf(s).seq_ == s
    }

    /** Byte `k` of message `s` has arrived. */
    ghost predicate Arrived(s: nat, k: nat)
      requires |incoming_messages| == SSL_MAX_HANDSHAKE_FLIGHT
      reads this`incoming_messages, incoming_messages
    {
      Present(s) && SlotOf(s).Has(k)
    }

    ghost predicate Complete(s: nat)
      requires |incoming_messages| == SSL_MAX_HANDSHAKE_FLIGHT
      reads this`incoming_messages, incoming_messages
    {
      Present(s) && SlotOf(s).reassembly == None
    }

    /** What slot `i` holds is right, as far as it has arrived. */
    ghost predicate SlotHolds(messages: seq<Message>, i: nat)
      requires i < |incoming_messages|
      reads this`incoming_messages, incoming_messages
    {
      incoming_messages[i] == null || incoming_messages[i].Matches(messages)
    }

    /** The peer means `messages`; what has arrived is right, and what was handed over are the
        first of them, in order, once each. */
    ghost predicate Holds(messages: seq<Message>)
      reads this`incoming_messages, this`delivered, incoming_messages
    {
      && |messages| < U16 && delivered <= messages
      && forall i: nat :: i < |incoming_messages| ==> SlotHolds(messages, i)
    }

    constructor (maxMessageLen: nat)
      ensures Valid() && delivered == [] && (forall s: nat :: !Present(s)) && Repr() == {}
      ensures handshake_read_seq == 0 && r_epoch == 0 && !has_message && this.maxMessageLen == maxMessageLen
      ensures forall messages: seq<Message> :: |messages| < U16 ==> Holds(messages)
    {
      incoming_messages := seq(SSL_MAX_HANDSHAKE_FLIGHT, _ => null);
      handshake_read_seq, has_message, r_epoch, this.maxMessageLen, delivered := 0, false, 0, maxMessageLen, [];
      nullCipher, has_change_cipher_spec := true, false;
    }

    predicate Malformed(f: Fragment) {
      f.hdr.frag_off + f.hdr.frag_len > f.hdr.msg_len || f.hdr.msg_len > maxMessageLen
    }

    predicate Rejects(f: Fragment)
      reads this`r_epoch, this`handshake_read_seq
    {
      RejectedBy(r_epoch, handshake_read_seq, f)
    }

    /** dtls1_get_incoming_message. */
    method GetIncomingMessage(hdr: Header, ghost messages: seq<Message>) returns (frag: HmFragment?)
      requires Valid() && Fits(hdr)
      modifies this`incoming_messages
      ensures Valid() && |incoming_messages| == |old(incoming_messages)|
      ensures frag == null ==> incoming_messages == old(incoming_messages)
      ensures frag != null ==>
        InWindow(hdr.seq_) && frag == SlotOf(hdr.seq_) && frag.seq_ == hdr.seq_ && frag.kind == hdr.kind
            && frag.msg_len == hdr.msg_len
      ensures frag != null ==>
        old(SlotOf(hdr.seq_)) == frag || (old(SlotOf(hdr.seq_)) == null && fresh(frag) && forall k: nat :: !frag.Has(k))
      ensures frag != null ==> incoming_messages == old(incoming_messages)[hdr.seq_ % SSL_MAX_HANDSHAKE_FLIGHT := frag]
      ensures old(Holds(messages)) && hdr.seq_ < |messages| && hdr.kind == messages[hdr.seq_].kind
              && hdr.msg_len == |messages[hdr.seq_].body| ==>
        Holds(messages) && (frag == null <==> !InWindow(hdr.seq_))
    {
      hide EncodeHeader, Padded, Got, HmFragment.Has;
      if hdr.seq_ < handshake_read_seq || hdr.seq_ - handshake_read_seq >= SSL_MAX_HANDSHAKE_FLIGHT { return null; }
      var idx := hdr.seq_ % SSL_MAX_HANDSHAKE_FLIGHT;
      frag := incoming_messages[idx];
      if frag != null {
        assert SlotHolds(messages, idx) || !Holds(messages);
        if frag.kind != hdr.kind || frag.msg_len != hdr.msg_len { return null; }
        return;
      }
      frag := new HmFragment(hdr);
      incoming_messages := incoming_messages[idx := frag];
      if old(Holds(messages)) {
        forall i: nat | i < |incoming_messages| ensures i != idx ==> SlotHolds(messages, i) {
          assert old(SlotHolds(messages, i));
        }
      }
    }

    /** The messages that have a slot. */
    ghost function PresentSet(): iset<nat>
      requires |incoming_messages| == SSL_MAX_HANDSHAKE_FLIGHT
      reads this`incoming_messages, incoming_messages
    {
      iset s: nat | Present(s)
    }

    /** The bytes (message number, position) that have arrived. */
    ghost function ArrivedSet(): iset<(nat, nat)>
      requires |incoming_messages| == SSL_MAX_HANDSHAKE_FLIGHT
      reads this`incoming_messages, incoming_messages
    {
      iset s: nat, k: nat | Arrived(s, k) :: (s, k)
    }

    /** The bytes of `f` go into its message, unless that is already complete. */
    method Keep(frag: HmFragment, f: Fragment, ghost messages: seq<Message>)
      requires Valid() && WellFormed(f) && !Malformed(f) && InWindow(f.hdr.seq_) && frag == SlotOf(f.hdr.seq_)
      requires frag.seq_ == f.hdr.seq_ && frag.msg_len == f.hdr.msg_len
      modifies frag
      ensures Valid()
      ensures forall s: nat :: Present(s) <==> old(Present(s))
      ensures forall s: nat, k: nat :: Arrived(s, k) <==> old(Arrived(s, k)) || Covers(f, s, k)
      ensures old(Holds(messages)) && IsSlice(messages, f) ==> Holds(messages)
    {
      hide EncodeHeader, Padded, Got, HmFragment.Matches;
      if frag.reassembly == None { return; }
      frag.Store(f);
      if old(Holds(messages)) && IsSlice(messages, f) {
        forall i: nat | i < |incoming_messages| ensures SlotHolds(messages, i) {
          assert old(SlotHolds(messages, i));
        }
      }
    }

    /** One turn of the loop of dtls1_open_handshake. */
    method HandleFragment(f: Fragment, ghost messages: seq<Message>) returns (h: Handled)
      requires Valid() && WellFormed(f)
      modifies this`incoming_messages, Repr()
      ensures Valid() && |incoming_messages| == |old(incoming_messages)|
      ensures fresh(Repr() - old(Repr()))
      ensures h != Failed ==> PresentSet() == old(PresentSet()) + NamesOf(handshake_read_seq, [f])
      ensures h != Failed ==> ArrivedSet() == old(ArrivedSet()) + BytesOf(handshake_read_seq, [f])
      ensures old(Holds(messages)) && IsSlice(messages, f) ==>
        Holds(messages) && (h == Failed <==> Malformed(f) || Rejects(f))
    {
      hide EncodeHeader, Padded, Got, HmFragment.Matches;
      if Malformed(f) { return Failed; }
      if r_epoch == 1 && f.hdr.seq_ != handshake_read_seq { return Failed; }
      if f.hdr.seq_ < handshake_read_seq
          || f.hdr.seq_ > handshake_read_seq + SSL_MAX_HANDSHAKE_FLIGHT { return Ignored; }
      var frag := GetIncomingMessage(f.hdr, messages);
      if frag == null { return Failed; }
      Keep(frag, f, messages);
      return Done;
    }

    /** Everything in a handshake record that dtls1_open_handshake was given. When all of it is
        pieces of the peer's real messages, the call succeeds unless one of them is rejected. */
    method OpenHandshakeRecord(record: seq<byte>, ghost messages: seq<Message>) returns (ok: bool)
      requires Valid()
      modifies this`incoming_messages, Repr()
      ensures Valid() && |incoming_messages| == |old(incoming_messages)| && fresh(Repr() - old(Repr()))
      ensures var fs := ParseRecordBody(record);
        && (ok ==> fs.Some?)
        && (ok ==> PresentSet() == old(PresentSet()) + NamesOf(handshake_read_seq, fs.value))
        && (ok ==> ArrivedSet() == old(ArrivedSet()) + BytesOf(handshake_read_seq, fs.value))
        && (old(Holds(messages)) && fs.Some? && (forall f <- fs.value :: IsSlice(messages, f) && !Malformed(f)) ==>
              Holds(messages) && (!ok <==> exists f <- fs.value :: Rejects(f)))
    {
      hide Holds, PresentSet, ArrivedSet, NamesOf, BytesOf, IsSlice, ParseFragment, ParseRecordBody, RejectedBy, Join;
      var cbs := record;
      ghost var done: seq<Fragment> := [];
      ghost var all := ParseRecordBody(record);
      ghost var honest := Holds(messages) && all.Some? &&
        forall f <- all.value :: IsSlice(messages, f) && !Malformed(f);
      JoinEnds(if all.Some? then all.value else []);
      NoNamesOrBytes(handshake_read_seq);
      while |cbs| > 0
        invariant Valid() && |incoming_messages| == |old(incoming_messages)|
        invariant fresh(Repr() - old(Repr()))
        invariant Join(done, ParseRecordBody(cbs)) == all
        invariant PresentSet() == old(PresentSet()) + NamesOf(handshake_read_seq, done)
        invariant ArrivedSet() == old(ArrivedSet()) + BytesOf(handshake_read_seq, done)
        invariant honest ==> Holds(messages) && forall f <- done :: !Rejects(f)
        decreases |cbs|
      {
        JoinStep(done, cbs);
        var r := ParseFragment(cbs);
        if r == None { return false; }
        var (f, rest) := r.value;
        if all.Some? { JoinPrefix(done + [f], ParseRecordBody(rest), f, all.value); }
        var h := HandleFragment(f, messages);
        if h == Failed { return false; }
        NamesAndBytesAdd(handshake_read_seq, done, f);
        cbs, done := rest, done + [f];
      }
      JoinEnds(done);
      ok := true;
    }

    /** dtls1_open_handshake, from the record dtls_open_record delivered. */
    method OpenHandshake(kind: byte, record: seq<byte>, ghost messages: seq<Message>) returns (ret: HandshakeResult)
      requires Valid()
      modifies this`incoming_messages, this`has_change_cipher_spec, Repr()
      ensures Valid()
      ensures kind == SSL3_RT_HANDSHAKE ==> has_change_cipher_spec == old(has_change_cipher_spec) && ret != Discard
      ensures kind != SSL3_RT_HANDSHAKE ==> PresentSet() == old(PresentSet()) && ArrivedSet() == old(ArrivedSet())
      ensures kind == SSL3_RT_APPLICATION_DATA ==> ret == if nullCipher then Error else Discard
      ensures kind == SSL3_RT_CHANGE_CIPHER_SPEC ==> (ret == if nullCipher && record == [1] then Success else Error)
      ensures kind == SSL3_RT_CHANGE_CIPHER_SPEC && ret == Success ==> has_change_cipher_spec
      ensures old(Holds(messages)) && kind != SSL3_RT_HANDSHAKE ==> Holds(messages)
      ensures kind == SSL3_RT_HANDSHAKE ==> var fs := ParseRecordBody(record);
        && (ret == Success ==> fs.Some?)
        && (ret == Success ==> PresentSet() == old(PresentSet()) + NamesOf(handshake_read_seq, fs.value))
        && (ret == Success ==> ArrivedSet() == old(ArrivedSet()) + BytesOf(handshake_read_seq, fs.value))
        && (old(Holds(messages)) && fs.Some? && (forall f <- fs.value :: IsSlice(messages, f) && !Malformed(f)) ==>
              Holds(messages) && (ret == Error <==> exists f <- fs.value :: Rejects(f)))
    {
      hide PresentSet, ArrivedSet, NamesOf, BytesOf, IsSlice, ParseRecordBody, RejectedBy;
      if kind == SSL3_RT_APPLICATION_DATA { return if nullCipher then Error else Discard; }
      if kind == SSL3_RT_CHANGE_CIPHER_SPEC {
        if !nullCipher { return Error; }
        if |record| != 1 || record[0] != 1 { return Error; }
        has_change_cipher_spec := true;
        return Success;
      }
      if kind != SSL3_RT_HANDSHAKE { return Error; }
      var ok := OpenHandshakeRecord(record, messages);
      ret := if ok then Success else Error;
    }

    // -------------------------------------------------------------- handing messages over

    /** dtls1_get_message: the next message, once all its bytes have arrived; with a peer that
        means `messages`, exactly that message, as one unfragmented piece of handshake data. */
    method GetMessage(ghost messages: seq<Message>) returns (out: Option<Delivery>)
      requires Valid()
      modifies this`has_message
      ensures Valid() && (out.Some? <==> Complete(handshake_read_seq)) && has_message == (out.Some? || old(has_message))
      ensures Holds(messages) == old(Holds(messages))
      ensures out.Some? && Holds(messages) ==>
        && handshake_read_seq < |messages| && out.value.message == messages[handshake_read_seq]
        && ParseFragment(out.value.raw) == Some((Fragment(WholeHeader(out.value.message.kind, handshake_read_seq,
           |out.value.message.body|), out.value.message.body), []))
    {
      hide ParseFragment, EncodeHeader, Padded, Got;
      var frag := SlotOf(handshake_read_seq);
      if frag == null || frag.reassembly != None { return None; }
      CompleteBody(messages);
      has_message := true;
      return Some(Delivery(Message(frag.kind, frag.Body()), frag.data));
    }

    /** dtls_has_unprocessed_handshake_data: anything but the message in the caller's hands, or a
        ChangeCipherSpec. */
    method HasUnprocessedHandshakeData() returns (unprocessed: bool)
      requires Valid()
      ensures unprocessed <==>
        has_change_cipher_spec || exists s: nat :: Present(s) && !(has_message && s == handshake_read_seq)
    {
      hide HmFragment.Valid;
      if has_change_cipher_spec { return true; }
      var current := handshake_read_seq % SSL_MAX_HANDSHAKE_FLIGHT;
      var i := 0;
      while i < SSL_MAX_HANDSHAKE_FLIGHT
        invariant i <= SSL_MAX_HANDSHAKE_FLIGHT
        invariant forall j :: 0 <= j < i && !(has_message && j == current) ==> incoming_messages[j] == null
      {
        if !(has_message && i == current) && incoming_messages[i] != null {
          var m := incoming_messages[i];
          assert Present(m.seq_);
          return true;
        }
        i := i + 1;
      }
      forall s: nat | Present(s) ensures has_message && s == handshake_read_seq {
        SameSlot(s, handshake_read_seq, handshake_read_seq);
      }
      return false;
    }

    /** A complete message is exactly what the peer meant. */
    lemma CompleteBody(messages: seq<Message>)
      requires Valid() && SlotOf(handshake_read_seq) != null && SlotOf(handshake_read_seq).reassembly == None
      ensures var m := SlotOf(handshake_read_seq);
        && m.seq_ == handshake_read_seq
        && (Holds(messages) ==>
           handshake_read_seq < |messages| && Message(m.kind, m.Body()) == messages[handshake_read_seq])
        && ParseFragment(m.data) == Some((Fragment(WholeHeader(m.kind, m.seq_, m.msg_len), m.Body()), []))
    {
      hide ParseFragment, EncodeHeader, Padded, Got;
      var m := SlotOf(handshake_read_seq);
      SameSlot(m.seq_, handshake_read_seq, handshake_read_seq);
      if Holds(messages) {
        assert SlotHolds(messages, handshake_read_seq % SSL_MAX_HANDSHAKE_FLIGHT);
        forall k: nat | k < m.msg_len ensures m.Body()[k] == messages[m.seq_].body[k] {
          assert m.Has(k);
        }
      }
      var f := Fragment(WholeHeader(m.kind, m.seq_, m.msg_len), m.Body());
      FragmentRoundTrip(f, []);
      assert EncodeFragment(f) + [] == m.data;
    }

    /** The current slot has been emptied. */
    twostate predicate OneLess()
      reads this`incoming_messages
    {
      && |old(incoming_messages)| == SSL_MAX_HANDSHAKE_FLIGHT
      && incoming_messages == old(incoming_messages)[old(handshake_read_seq) % SSL_MAX_HANDSHAKE_FLIGHT := null]
    }

    /** Emptying the current slot loses nothing of any other message. */
    twostate lemma OthersStay()
      requires old(Valid()) && old(Present(handshake_read_seq)) && OneLess()
      requires unchanged(old(Repr()))
      ensures PresentSet() == old(PresentSet()) - iset{old(handshake_read_seq)}
      ensures ArrivedSet()
              == iset s: nat, k: nat | s != old(handshake_read_seq) && (s, k) in old(ArrivedSet()) :: (s, k)
    {
      hide Padded, Got, EncodeHeader;
      var n := old(handshake_read_seq);
      forall s: nat ensures Present(s) <==> s != n && old(Present(s)) {
        if old(Present(s)) && s % SSL_MAX_HANDSHAKE_FLIGHT == n % SSL_MAX_HANDSHAKE_FLIGHT { SameSlot(s, n, n); }
      }
      forall s: nat, k: nat ensures Arrived(s, k) <==> s != n && old(Arrived(s, k)) {
        assert Present(s) <==> s != n && old(Present(s));
        if Present(s) { assert SlotOf(s) == old(SlotOf(s)) && SlotOf(s) in old(incoming_messages); }
      }
    }

    /** What is left in the slots is as right as it was. */
    twostate lemma OthersHold(messages: seq<Message>)
      requires old(Holds(messages)) && OneLess() && delivered <= messages
      requires unchanged(old(Repr()))
      ensures Holds(messages)
    {
      hide HmFragment.Matches;
      forall i: nat | i < |incoming_messages| ensures SlotHolds(messages, i) {
        if i != old(handshake_read_seq) % SSL_MAX_HANDSHAKE_FLIGHT {
          assert incoming_messages[i] == old(incoming_messages[i]) && old(SlotHolds(messages, i));
        }
      }
    }

    /** The window of a receiver whose current slot is empty may move on. */
    twostate lemma WindowMoves()
      requires old(Valid()) && OneLess() && !has_message && |delivered| == |old(delivered)| + 1
      requires unchanged(old(Repr()))
      requires handshake_read_seq == (old(handshake_read_seq) + 1) % U16
      ensures Valid()
    {
      hide HmFragment.Valid;
      forall i | 0 <= i < SSL_MAX_HANDSHAKE_FLIGHT && incoming_messages[i] != null
        ensures incoming_messages[i].Valid() && InWindow(incoming_messages[i].seq_)
      {
        var m := incoming_messages[i];
        assert m == old(incoming_messages[i]) && m in old(incoming_messages) && old(m.Valid()) && m.Valid();
        m.Bounds();
        assert m.seq_ % SSL_MAX_HANDSHAKE_FLIGHT == i;
      }
    }

    /** dtls1_next_message: the message is done with, and the window moves on. */
    method NextMessage(ghost messages: seq<Message>)
      requires Valid() && has_message
      modifies this`incoming_messages, this`handshake_read_seq, this`has_message, this`delivered
      ensures Valid() && !has_message && |delivered| == |old(delivered)| + 1
      ensures handshake_read_seq == (old(handshake_read_seq) + 1) % U16
      ensures incoming_messages == old(incoming_messages)[old(handshake_read_seq) % SSL_MAX_HANDSHAKE_FLIGHT := null]
      ensures PresentSet() == old(PresentSet()) - iset{old(handshake_read_seq)}
      ensures ArrivedSet()
              == iset s: nat, k: nat | s != old(handshake_read_seq) && (s, k) in old(ArrivedSet()) :: (s, k)
      ensures old(Holds(messages)) ==> Holds(messages) && delivered == messages[..|delivered|]
    {
      hide HmFragment.Valid, HmFragment.Matches, PresentSet, ArrivedSet, ParseFragment;
      CompleteBody(messages);
      var index := handshake_read_seq % SSL_MAX_HANDSHAKE_FLIGHT;
      ghost var m := incoming_messages[index];
      m.Bounds();
      delivered := delivered + [Message(m.kind, m.Body())];
      incoming_messages := incoming_messages[index := null];
      handshake_read_seq := (handshake_read_seq + 1) % U16;
      has_message := false;
      OthersStay();
      WindowMoves();
      if old(Holds(messages)) {
        assert delivered == messages[..|delivered|];
        OthersHold(messages);
      }
    }
  }

  /** Two numbers of one window that share a slot are the same. */
  lemma SameSlot(a: nat, b: nat, readSeq: nat)
    requires Within(readSeq, a) && Within(readSeq, b) && a % SSL_MAX_HANDSHAKE_FLIGHT == b % SSL_MAX_HANDSHAKE_FLIGHT
    ensures a == b
  {
  }
}
