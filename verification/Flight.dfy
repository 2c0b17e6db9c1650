/**
 The sending half of d1_both.cc: the messages of a flight are cut into fragments, packed into
 datagrams of at most the MTU, and resumed where a failed write left off.
*/
module Flight {
  import opened Bytes
  import opened Numbers
  import opened HandshakeFormat

  /** DTLS_OUTGOING_MESSAGE: a whole message in fragment form, or a ChangeCipherSpec. */
  datatype Outgoing = Outgoing(data: seq<byte>, epoch: nat, is_ccs: bool)

  /** A sealed record: what it protects, and how long it is. */
  datatype Sealed = Sealed(kind: byte, payload: seq<byte>, epoch: nat, length: nat)

  datatype Position = Position(written: nat, offset: nat)

  /** How sealing behaves in one epoch: the bytes it may add, how many of them come first, and the
      length of the record for a payload, or nothing if sealing fails. */
  datatype Cipher = Cipher(maxOverhead: nat, prefix: nat, sealedLength: nat -> Option<nat>)

  ghost predicate ValidCipher(c: Cipher) {
    c.prefix <= c.maxOverhead && forall n: nat :: c.sealedLength(n).Some? ==>
        c.sealedLength(n).value <= n + c.maxOverhead
  }

  /** Sealing never fails, and the MTU has room for at least one byte of a message. */
  ghost predicate NeverFails(c: Cipher, mtu: nat) {
    (forall n: nat :: c.sealedLength(n).Some?) && DTLS1_HM_HEADER_LENGTH + 1 + c.maxOverhead <= mtu
  }

  /** The message behind the bytes queued for it. */
  function Whole(m: Outgoing): Option<Fragment> {
    var r := ParseFragment(m.data);
    if r == None || r.value.1 != [] then None else
      var f := r.value.0;
      if f.hdr.frag_off == 0 && f.hdr.frag_len == f.hdr.msg_len == |f.body| then Some(f) else None
  }

  function BodyLength(m: Outgoing): nat {
    if m.is_ccs || Whole(m) == None then 0 else |Whole(m).value.body|
  }

  /** The `n` bytes from `offset` on of a message, as a fragment. */
  function Piece(whole: Fragment, offset: nat, n: nat): Fragment
    requires offset + n <= |whole.body|
  {
    Fragment(whole.hdr.(frag_off := offset, frag_len := n), whole.body[offset..offset + n])
  }

  // ---------------------------------------------------------------- what has been sent

  /** `r` carries on exactly where `p` stands: the ChangeCipherSpec, or the next bytes of the
      message, at least one unless it is empty. The result is where that leaves off. */
  function Next(messages: seq<Outgoing>, p: Position, r: Sealed): Option<Position> {
    if p.written >= |messages| || r.epoch != messages[p.written].epoch then None else
      var m := messages[p.written];
      if m.is_ccs then
        if r.kind == SSL3_RT_CHANGE_CIPHER_SPEC && r.payload == [1] then Some(Position(p.written + 1, 0)) else None
      else if Whole(m) == None || r.kind != SSL3_RT_HANDSHAKE || |r.payload| < DTLS1_HM_HEADER_LENGTH then None else
        var whole, n := Whole(m).value, |r.payload| - DTLS1_HM_HEADER_LENGTH;
        if p.offset + n > |whole.body| || (n == 0 && whole.body != []) then None
        else if r.payload != EncodeFragment(Piece(whole, p.offset, n)) then None
        else if p.offset + n == |whole.body| then Some(Position(p.written + 1, 0))
        else Some(Position(p.written, p.offset + n))
  }

  /** The same for a sequence of records. */
  function After(messages: seq<Outgoing>, p: Position, records: seq<Sealed>): Option<Position> {
    if records == [] then Some(p) else
      var q := After(messages, p, records[..|records| - 1]);
      if q == None then None else Next(messages, q.value, records[|records| - 1])
  }

  lemma {:induction false} AfterConcat(messages: seq<Outgoing>, p: Position, a: seq<Sealed>, b: seq<Sealed>)
    requires After(messages, p, a).Some?
    ensures After(messages, p, a + b) == After(messages, After(messages, p, a).value, b)
  {
    hide Next;
    if b == [] {
      assert a + b == a;
    } else {
      var n := |b| - 1;
      AfterConcat(messages, p, a, b[..n]);
      assert (a + b)[..|a + b| - 1] == a + b[..n];
    }
  }

  lemma AfterOne(messages: seq<Outgoing>, p: Position, a: seq<Sealed>, r: Sealed)
    requires After(messages, p, a).Some?
    ensures After(messages, p, a + [r]) == Next(messages, After(messages, p, a).value, r)
  {
    hide Next;
    assert (a + [r])[..|a|] == a;
  }

  predicate Later(p: Position, q: Position) {
    p.written < q.written || (p.written == q.written && p.offset < q.offset)
  }

  lemma {:induction false} AfterIsLater(messages: seq<Outgoing>, p: Position, records: seq<Sealed>)
    requires After(messages, p, records).Some?
    ensures records == [] || Later(p, After(messages, p, records).value)
  {
    if records != [] {
      AfterIsLater(messages, p, records[..|records| - 1]);
    }
  }

  /** The message bytes that the records carry for message `i`, in the order they were sent. */
  function Carried(messages: seq<Outgoing>, p: Position, records: seq<Sealed>, i: nat): seq<byte>
    requires After(messages, p, records).Some?
  {
    if records == [] then [] else
      var n := |records| - 1;
      var q := After(messages, p, records[..n]).value;
      Carried(messages, p, records[..n], i)
      + if q.written == i && !messages[i].is_ccs then records[n].payload[DTLS1_HM_HEADER_LENGTH..] else []
  }

  /** How many records are the ChangeCipherSpec at position `i`. */
  function Announced(messages: seq<Outgoing>, p: Position, records: seq<Sealed>, i: nat): nat
    requires After(messages, p, records).Some?
  {
    if records == [] then 0 else
      var n := |records| - 1;
      Announced(messages, p, records[..n], i) + if After(messages, p, records[..n]).value.written == i
          && messages[i].is_ccs then 1 else 0
  }

  lemma PayloadBody(f: Fragment)
    requires Fits(f.hdr)
    ensures |EncodeFragment(f)| == DTLS1_HM_HEADER_LENGTH + |f.body|
            && EncodeFragment(f)[DTLS1_HM_HEADER_LENGTH..] == f.body
  {
    hide EncodeHeader;
    HeaderSize(f.hdr);
  }

  /** What one more record carries. */
  lemma NextCarries(messages: seq<Outgoing>, p: Position, r: Sealed)
    requires Next(messages, p, r).Some?
    ensures p.written < |messages| && (p.offset <= BodyLength(messages[p.written]) || messages[p.written].is_ccs)
    ensures var q, m := Next(messages, p, r).value, messages[p.written];
      && (m.is_ccs ==> q == Position(p.written + 1, 0))
      && (!m.is_ccs ==>
            (Whole(m).Some? && |r.payload| >= DTLS1_HM_HEADER_LENGTH && p.offset <= |Whole(m).value.body| &&
             var body, sent := Whole(m).value.body, r.payload[DTLS1_HM_HEADER_LENGTH..];
             if q.written == p.written then p.offset < q.offset < |body| && body[..p.offset] + sent == body[..q.offset]
             else q == Position(p.written + 1, 0) && body[..p.offset] + sent == body))
  {
    hide EncodeFragment;
    var m := messages[p.written];
    if !m.is_ccs {
      var whole, k := Whole(m).value, |r.payload| - DTLS1_HM_HEADER_LENGTH;
      PayloadBody(Piece(whole, p.offset, k));
      assert whole.body[..p.offset] + whole.body[p.offset..p.offset + k] == whole.body[..p.offset + k];
      assert p.offset + k == |whole.body| ==> whole.body[..p.offset + k] == whole.body;
    }
  }

  /** A position of the flight. */
  predicate Inside(messages: seq<Outgoing>, p: Position) {
    && p.written <= |messages| && (p.written == |messages| ==> p.offset == 0)
    && (p.written < |messages| ==> p.offset == 0 || p.offset < BodyLength(messages[p.written]))
  }

  /** Exactly once: from the start of the flight, the pieces sent for each message before the
      current position are, in order, its whole body; of the current one, everything before the
      offset; of later ones, nothing. Each ChangeCipherSpec went out once. */
  lemma {:induction false} ExactlyOnce(messages: seq<Outgoing>, records: seq<Sealed>, i: nat)
    requires After(messages, Position(0, 0), records).Some? && i < |messages|
    ensures var p, carried := After(messages, Position(0, 0), records).value,
      Carried(messages, Position(0, 0), records, i);
      && (messages[i].is_ccs || i > p.written ==> carried == [])
      && (!messages[i].is_ccs && i < p.written ==> Whole(messages[i]).Some? && carried == Whole(messages[i]).value.body)
      && (!messages[i].is_ccs && i == p.written ==>
            if Whole(messages[i]) == None then carried == []
            else p.offset <= |Whole(messages[i]).value.body| && carried == Whole(messages[i]).value.body[..p.offset])
      && Announced(messages, Position(0, 0), records, i) == if messages[i].is_ccs && i < p.written then 1 else 0
  {
    hide Next, Whole;
    if records != [] {
      var n := |records| - 1;
      ExactlyOnce(messages, records[..n], i);
      NextCarries(messages, After(messages, Position(0, 0), records[..n]).value, records[n]);
    }
  }

  // ---------------------------------------------------------------- sending

  datatype SealResult = seal_error | seal_no_progress | seal_partial | seal_success

  datatype SendResult = Flushed | WriteFailed(ret: int) | NotSealed

  function TotalLength(packet: seq<Sealed>): nat {
    if packet == [] then 0 else TotalLength(packet[..|packet| - 1]) + packet[|packet| - 1].length
  }

  lemma TotalOne(packet: seq<Sealed>, r: Sealed)
    ensures TotalLength(packet + [r]) == TotalLength(packet) + r.length
  {
    assert (packet + [r])[..|packet|] == packet;
  }

  /** The transport: what each write returns is not under our control. */
  class Transport {
    const results: nat -> int
    var calls: nat
    ghost var packets: seq<seq<Sealed>>

    constructor (results: nat -> int)
      ensures packets == [] && this.results == results
    {
      this.results, calls, packets := results, 0, [];
    }

    /** BIO_write: a positive result means the datagram was sent. */
    method Write(packet: seq<Sealed>) returns (ret: int)
      modifies this
      ensures ret == results(old(calls)) && packets == if ret > 0 then old(packets) + [packet] else old(packets)
    {
      ret := results(calls);
      calls := calls + 1;
      if ret > 0 { packets := packets + [packet]; }
    }
  }

  function Flat(packets: seq<seq<Sealed>>): seq<Sealed> {
    if packets == [] then [] else Flat(packets[..|packets| - 1]) + packets[|packets| - 1]
  }

  lemma FlatOne(packets: seq<seq<Sealed>>, packet: seq<Sealed>)
    ensures Flat(packets + [packet]) == Flat(packets) + packet
  {
    assert (packets + [packet])[..|packets|] == packets;
  }

  /** DTLS1_STATE, its sending fields. */
  class Sender {
    var outgoing_messages: seq<Outgoing>
    var outgoing_written: nat
    var outgoing_offset: nat
    var outgoing_messages_complete: bool
    var handshake_write_seq: nat
    var transcript: seq<byte>
    var w_epoch: nat
    var mtu: nat
    var current: Cipher
    var previous: Cipher

    ghost function Here(): Position
      reads this
    {
      Position(outgoing_written, outgoing_offset)
    }

    ghost predicate Valid()
      reads this
    {
      Inside(outgoing_messages, Here()) && ValidCipher(current) && ValidCipher(previous)
    }

    /** A message that nothing but the transport can keep from being sent. */
    ghost predicate Sendable(m: Outgoing)
      reads this
    {
      && (m.epoch == w_epoch || m.epoch + 1 == w_epoch) && (m.is_ccs || Whole(m).Some?)
      && NeverFails(if m.epoch == w_epoch then current else previous, mtu)
    }

    /** A message that is refused whatever the room: of another epoch, or not one whole message. */
    ghost predicate Refused(m: Outgoing)
      reads this`w_epoch
    {
      (m.epoch != w_epoch && m.epoch + 1 != w_epoch) || (!m.is_ccs && Whole(m) == None)
    }

    constructor (current: Cipher, mtu: nat)
      requires ValidCipher(current)
      ensures Valid() && outgoing_messages == [] && Here() == Position(0, 0) && w_epoch == 0 && this.mtu == mtu
      ensures this.current == current && !outgoing_messages_complete && transcript == [] && handshake_write_seq == 0
    {
      outgoing_messages, outgoing_written, outgoing_offset, outgoing_messages_complete := [], 0, 0, false;
      handshake_write_seq, transcript := 0, [];
      w_epoch, this.mtu, this.current, previous := 0, mtu, current, current;
    }

    /** seal_next_message: the next record of the flight, if `max_out` bytes leave room for one. */
    method SealNextMessage(max_out: nat) returns (r: SealResult, record: Sealed)
      requires Valid() && outgoing_written < |outgoing_messages|
      modifies this`outgoing_offset
      ensures Valid()
      ensures r == seal_success || r == seal_partial ==> record.length <= max_out
      ensures r == seal_success ==>
        outgoing_offset == 0 && Next(outgoing_messages, old(Here()), record) == Some(Position(outgoing_written + 1, 0))
      ensures r == seal_partial ==> Next(outgoing_messages, old(Here()), record) == Some(Here())
      ensures r == seal_error || r == seal_no_progress ==> outgoing_offset == old(outgoing_offset)
      ensures Sendable(outgoing_messages[outgoing_written]) ==>
        r != seal_error && (max_out >= mtu ==> r != seal_no_progress)
      ensures Refused(outgoing_messages[outgoing_written]) ==> r == seal_error
    {
      hide EncodeHeader, ParseFragment;
      var msg := outgoing_messages[outgoing_written];
      record := Sealed(SSL3_RT_HANDSHAKE, [], 0, 0);
      var cipher := current;
      if w_epoch >= 1 && msg.epoch == w_epoch - 1 {
        cipher := previous;
      } else if msg.epoch != w_epoch {
        return seal_error, record;
      }
      var overhead := cipher.maxOverhead;
      if msg.is_ccs {
        if max_out < 1 + overhead { return seal_no_progress, record; }
        var length := cipher.sealedLength(1);
        if length == None { return seal_error, record; }
        record := Sealed(SSL3_RT_CHANGE_CIPHER_SPEC, [1], msg.epoch, length.value);
        return seal_success, record;
      }
      var whole := Whole(msg);
      if whole == None || outgoing_offset > |whole.value.body| { return seal_error, record; }
      if max_out < DTLS1_HM_HEADER_LENGTH + 1 + overhead || max_out < cipher.prefix { return seal_no_progress, record; }
      var todo := |whole.value.body| - outgoing_offset;
      if todo > max_out - DTLS1_HM_HEADER_LENGTH - overhead {
        todo := max_out - DTLS1_HM_HEADER_LENGTH - overhead;
      }
      WholeFits(msg);
      var frag := EncodeFragment(Piece(whole.value, outgoing_offset, todo));
      PayloadBody(Piece(whole.value, outgoing_offset, todo));
      var length := cipher.sealedLength(|frag|);
      if length == None { return seal_error, record; }
      record := Sealed(SSL3_RT_HANDSHAKE, frag, msg.epoch, length.value);
      if todo == |whole.value.body| - outgoing_offset {
        outgoing_offset := 0;
        return seal_success, record;
      }
      outgoing_offset := outgoing_offset + todo;
      return seal_partial, record;
    }

    /** seal_next_packet: as many records as fit, at least one. */
    method SealNextPacket(max_out0: nat) returns (ok: bool, packet: seq<Sealed>)
      requires Valid() && outgoing_written < |outgoing_messages|
      modifies this`outgoing_written, this`outgoing_offset
      ensures Valid() && TotalLength(packet) <= max_out0
      ensures After(outgoing_messages, old(Here()), packet) == Some(Here())
      ensures ok ==> packet != []
      ensures !ok && max_out0 >= mtu ==>
        outgoing_written < |outgoing_messages| && !Sendable(outgoing_messages[outgoing_written])
      ensures ok && outgoing_written < |outgoing_messages| ==> !Refused(outgoing_messages[outgoing_written])
    {
      hide Next, After, Sendable, Refused, Whole;
      var max_out: nat := max_out0;
      packet := [];
      AfterNone(outgoing_messages, Here());
      while outgoing_written < |outgoing_messages|
        invariant Valid() && TotalLength(packet) + max_out == max_out0
        invariant After(outgoing_messages, old(Here()), packet) == Some(Here())
        decreases |outgoing_messages| - outgoing_written
      {
        var ret, record := SealNextMessage(max_out);
        if ret == seal_error { return false, packet; }
        if ret == seal_no_progress { break; }
        AfterOne(outgoing_messages, old(Here()), packet, record);
        TotalOne(packet, record);
        max_out := max_out - record.length;
        packet := packet + [record];
        if ret == seal_partial { break; }
        outgoing_written := outgoing_written + 1;
      }
      ok := packet != [];
    }

    /** The packets sent since the `first`-th, and then the records `lost`, take the flight from
        `start` to where it stands. */
    ghost predicate SentSince(transport: Transport, first: nat, start: Position, lost: seq<Sealed>)
      reads this, transport
    {
      && first <= |transport.packets|
      && After(outgoing_messages, start, Flat(transport.packets[first..]) + lost) == Some(Here())
    }

    /** Some write, or the final flush, fails. */
    static ghost predicate TransportFails(transport: Transport, flushed: int) {
      flushed <= 0 || exists n: nat :: transport.results(n) <= 0
    }

    /** send_flight. A failed write leaves the flight where the last successful one left it, so
        that over any number of calls and failures every message is sent exactly once. Only a
        message that cannot be sealed, or an MTU too small for one byte of it, ends the flight; and
        then what had been sealed before it in the same packet counts as sent although it was not.
        A message that is refused always has that effect, unless the flight already stood at it. */
    method SendFlight(transport: Transport, flushed: int, ghost first: nat, ghost start: Position)
      returns (ret: SendResult, ghost lost: seq<Sealed>)
      requires Valid() && SentSince(transport, first, start, []) && transport != this as object
      modifies this`outgoing_written, this`outgoing_offset, transport
      ensures Valid() && old(transport.packets) <= transport.packets
      ensures forall i :: |old(transport.packets)| <= i < |transport.packets| ==>
        TotalLength(transport.packets[i]) <= mtu
      ensures SentSince(transport, first, start, lost) && TotalLength(lost) <= mtu
      ensures ret != NotSealed ==> lost == []
      ensures ret == NotSealed ==>
        outgoing_written < |outgoing_messages| && !Sendable(outgoing_messages[outgoing_written])
      ensures ret == NotSealed && Refused(outgoing_messages[outgoing_written]) ==>
        (lost == [] <==> Here() == old(Here()))
      ensures ret == Flushed ==> outgoing_written == |outgoing_messages|
      ensures ret.WriteFailed? ==> TransportFails(transport, flushed)
    {
      hide After, Flat, Sendable, Refused, Inside, Next;
      lost := [];
      while outgoing_written < |outgoing_messages|
        invariant Valid() && old(transport.packets) <= transport.packets && SentSince(transport, first, start, [])
        invariant forall i :: |old(transport.packets)| <= i < |transport.packets| ==>
          TotalLength(transport.packets[i]) <= mtu
        invariant Here() == old(Here()) || (Later(old(Here()), Here()) && outgoing_written <= |outgoing_messages|
          && (outgoing_written < |outgoing_messages| ==> !Refused(outgoing_messages[outgoing_written])))
        decreases |outgoing_messages| - outgoing_written,
                  if outgoing_written >= |outgoing_messages| then 0
                  else BodyLength(outgoing_messages[outgoing_written]) + 1 - outgoing_offset
      {
        var old_written, old_offset := outgoing_written, outgoing_offset;
        ghost var before, sent := Here(), transport.packets;
        InsideBound(outgoing_messages, before);
        var ok, packet := SealNextPacket(mtu);
        SentAndMore(outgoing_messages, start, Flat(sent[first..]), packet);
        AfterIsLater(outgoing_messages, before, packet);
        if !ok {
          lost := packet;
          if lost == [] { AfterNone(outgoing_messages, before); }
          return NotSealed, lost;
        }
        var bio_ret := transport.Write(packet);
        if bio_ret <= 0 {
          outgoing_written, outgoing_offset := old_written, old_offset;
          return WriteFailed(bio_ret), lost;
        }
        InsideBound(outgoing_messages, Here());
        FlatOne(sent[first..], packet);
        assert transport.packets[first..] == sent[first..] + [packet];
        assert Flat(transport.packets[first..]) + [] == Flat(transport.packets[first..]);
      }
      InsideBound(outgoing_messages, Here());
      NothingLost(lost);
      if flushed <= 0 { return WriteFailed(-1), lost; }
      ret := Flushed;
    }

    lemma NothingLost(lost: seq<Sealed>)
      requires lost == []
      ensures TotalLength(lost) == 0
    {
    }

    /** dtls1_flush_flight: nothing is added to the flight any more. */
    method FlushFlight(transport: Transport, flushed: int, ghost first: nat, ghost start: Position)
      returns (ret: SendResult, ghost lost: seq<Sealed>)
      requires Valid() && SentSince(transport, first, start, []) && transport != this as object
      modifies this`outgoing_messages_complete, this`outgoing_written, this`outgoing_offset, transport
      ensures Valid() && outgoing_messages_complete && old(transport.packets) <= transport.packets
      ensures forall i :: |old(transport.packets)| <= i < |transport.packets| ==>
        TotalLength(transport.packets[i]) <= mtu
      ensures SentSince(transport, first, start, lost) && (ret != NotSealed ==> lost == [])
      ensures ret == NotSealed ==>
        outgoing_written < |outgoing_messages| && !Sendable(outgoing_messages[outgoing_written])
      ensures ret == NotSealed && Refused(outgoing_messages[outgoing_written]) ==>
        (lost == [] <==> Here() == old(Here()))
      ensures ret == Flushed ==> outgoing_written == |outgoing_messages|
      ensures ret.WriteFailed? ==> TransportFails(transport, flushed)
    {
      outgoing_messages_complete := true;
      ret, lost := SendFlight(transport, flushed, first, start);
    }

    /** dtls1_retransmit_outgoing_messages: the flight again, from its start. */
    method Retransmit(transport: Transport, flushed: int)
      returns (ret: SendResult, ghost first: nat, ghost lost: seq<Sealed>)
      requires Valid() && transport != this as object
      modifies this`outgoing_written, this`outgoing_offset, transport
      ensures Valid() && first == |old(transport.packets)| <= |transport.packets|
      ensures forall i :: first <= i < |transport.packets| ==> TotalLength(transport.packets[i]) <= mtu
      ensures SentSince(transport, first, Position(0, 0), lost) && (ret != NotSealed ==> lost == [])
      ensures ret == NotSealed ==>
        outgoing_written < |outgoing_messages| && !Sendable(outgoing_messages[outgoing_written])
      ensures ret == NotSealed && Refused(outgoing_messages[outgoing_written]) ==>
        (lost == [] <==> Here() == Position(0, 0))
      ensures ret == Flushed ==> outgoing_written == |outgoing_messages|
      ensures ret.WriteFailed? ==> TransportFails(transport, flushed)
    {
      outgoing_written, outgoing_offset := 0, 0;
      first := |transport.packets|;
      assert transport.packets[first..] == [];
      ret, lost := SendFlight(transport, flushed, first, Position(0, 0));
    }

    /** add_outgoing. Once a flight is complete, the next message starts another one; until then it
        joins the end, and what has been sent still counts. */
    method AddOutgoing(data: seq<byte>, is_ccs: bool, maxFlight: nat, ghost transport: Transport, ghost first: nat)
      returns (ok: bool, ghost now: nat)
      requires Valid() && SentSince(transport, first, Position(0, 0), []) && maxFlight > 0
      modifies this`outgoing_messages, this`outgoing_written, this`outgoing_offset, this`outgoing_messages_complete,
               this`handshake_write_seq, this`transcript
      ensures Valid() && SentSince(transport, now, Position(0, 0), []) && !outgoing_messages_complete
      ensures now == if old(outgoing_messages_complete) then |transport.packets| else first
      ensures Here() == if old(outgoing_messages_complete) then Position(0, 0) else old(Here())
      ensures var flight := if old(outgoing_messages_complete) then [] else old(outgoing_messages);
        && (ok <==> |flight| < maxFlight && |data| < 0x1_0000_0000)
        && outgoing_messages == if ok then flight + [Outgoing(data, w_epoch, is_ccs)] else flight
      ensures transcript == if ok && !is_ccs then old(transcript) + data else old(transcript)
      ensures handshake_write_seq == if ok && !is_ccs then (old(handshake_write_seq) + 1) % U16
              else old(handshake_write_seq)
    {
      hide After, Whole, Next;
      now := first;
      if outgoing_messages_complete {
        outgoing_messages, outgoing_written, outgoing_offset, outgoing_messages_complete := [], 0, 0, false;
        now := |transport.packets|;
        assert transport.packets[now..] == [];
        AfterNone([], Position(0, 0));
      }
      assert Flat(transport.packets[now..]) + [] == Flat(transport.packets[now..]);
      ok := |outgoing_messages| < maxFlight && |data| <= 0xffff_ffff;
      if !ok { return; }
      if !is_ccs {
        transcript, handshake_write_seq := transcript + data, (handshake_write_seq + 1) % U16;
      }
      MoreMessages(outgoing_messages, Outgoing(data, w_epoch, is_ccs), Flat(transport.packets[now..]));
      outgoing_messages := outgoing_messages + [Outgoing(data, w_epoch, is_ccs)];
    }

    /** dtls1_set_write_state: what was queued for the epoch that ends can still be sent. */
    method SetWriteState(cipher: Cipher)
      requires Valid() && ValidCipher(cipher)
      modifies this`w_epoch, this`current, this`previous
      ensures Valid() && w_epoch == old(w_epoch) + 1 && previous == old(current) && current == cipher
      ensures forall m <- outgoing_messages :: m.epoch == old(w_epoch) && old(Sendable(m)) ==> Sendable(m)
    {
      hide Whole, Inside, NeverFails, ValidCipher;
      w_epoch, previous, current := w_epoch + 1, current, cipher;
    }
  }

  /** A ChangeCipherSpec followed by an empty message that was never finished: sealing the second one
      fails, nothing has been sent, and yet the flight stands behind the first. */
  method SealErrorSkipsMessage() returns (s: Sender, t: Transport)
    ensures s.Valid() && s.outgoing_messages == [Outgoing([], 0, true), Outgoing([], 0, false)]
    ensures s.outgoing_written == 1 && Flat(t.packets) == []
  {
    hide After, Sender.Sendable, Sender.Refused, Whole, Inside, Flat;
    var cipher := Cipher(0, 0, n => Some(n));
    s := new Sender(cipher, 100);
    var results := n => 1;
    t := new Transport(results);
    NothingSent(t);
    var ok;
    ghost var first;
    ok, first := s.AddOutgoing([], true, 2, t, 0);
    ok, first := s.AddOutgoing([], false, 2, t, first);
    var ret;
    ghost var lost;
    ret, lost := s.FlushFlight(t, 1, 0, Position(0, 0));
    assert t.packets[0..] == t.packets;
    OnlyTheFirst(s.outgoing_messages, Flat(t.packets) + lost);
    RefusesTheSecond(s);
  }

  lemma NothingSent(t: Transport)
    requires t.packets == []
    ensures Flat(t.packets[0..]) + [] == [] && After([], Position(0, 0), []) == Some(Position(0, 0))
  {
    assert t.packets[0..] == [];
  }

  lemma RefusesTheSecond(s: Sender)
    requires s.outgoing_messages == [Outgoing([], 0, true), Outgoing([], 0, false)] && s.w_epoch == 0 && s.mtu == 100
    requires NeverFails(s.current, 100)
    ensures s.Sendable(s.outgoing_messages[0]) && s.Refused(s.outgoing_messages[1])
  {
    assert ParseFragment([]) == None;
  }

  lemma OnlyTheFirst(messages: seq<Outgoing>, records: seq<Sealed>)
    requires messages == [Outgoing([], 0, true), Outgoing([], 0, false)]
    requires After(messages, Position(0, 0), records).Some?
    ensures |records| <= 1 && After(messages, Position(0, 0), records) == Some(Position(|records|, 0))
  {
    assert ParseFragment([]) == None;
    if records != [] { OnlyTheFirst(messages, records[..|records| - 1]); }
  }

  /** What follows the records sent so far. */
  lemma SentAndMore(messages: seq<Outgoing>, start: Position, sent: seq<Sealed>, packet: seq<Sealed>)
    requires After(messages, start, sent + []).Some?
    ensures After(messages, start, sent + packet) == After(messages, After(messages, start, sent + []).value, packet)
  {
    hide After;
    assert sent + [] == sent;
    AfterConcat(messages, start, sent, packet);
  }

  lemma InsideBound(messages: seq<Outgoing>, p: Position)
    requires Inside(messages, p)
    ensures p.written <= |messages| && (p.written < |messages| ==> p.offset <= BodyLength(messages[p.written]))
  {
  }

  /** Queueing one more message does not change what has been sent. */
  lemma {:induction false} MoreMessages(messages: seq<Outgoing>, m: Outgoing, records: seq<Sealed>)
    requires After(messages, Position(0, 0), records).Some?
    ensures After(messages + [m], Position(0, 0), records) == After(messages, Position(0, 0), records)
  {
    hide Whole;
    if records != [] {
      MoreMessages(messages, m, records[..|records| - 1]);
    }
  }

  lemma AfterNone(messages: seq<Outgoing>, p: Position)
    ensures After(messages, p, []) == Some(p)
  {
  }

  lemma WholeFits(m: Outgoing)
    requires Whole(m).Some?
    ensures Fits(Whole(m).value.hdr) && |Whole(m).value.body| < U24
  {
  }
}
