/** DTLS handshake fragments on the wire (RFC 6347, section 4.2.2). */
module HandshakeFormat {
  import opened Bytes
  import opened Numbers

  const SSL3_RT_CHANGE_CIPHER_SPEC: byte := 20
  const SSL3_RT_HANDSHAKE: byte := 22

  const DTLS1_HM_HEADER_LENGTH := 12
  const U24 := 0x100_0000

  /** hm_header_st. */
  datatype Header = Header(kind: byte, msg_len: nat, seq_: nat, frag_off: nat, frag_len: nat)

  datatype Fragment = Fragment(hdr: Header, body: seq<byte>)

  predicate Fits(h: Header) {
    h.msg_len < U24 && h.seq_ < U16 && h.frag_off < U24 && h.frag_len < U24
  }

  function Bytes16(n: nat): seq<byte>
    requires n < U16
  {
    [n / 256, n % 256]
  }

  function Bytes24(n: nat): seq<byte>
    requires n < U24
  {
    [n / 0x1_0000, n / 256 % 256, n % 256]
  }

  function EncodeHeader(h: Header): (p: seq<byte>)
    requires Fits(h)
  {
    [h.kind] + Bytes24(h.msg_len) + Bytes16(h.seq_) + Bytes24(h.frag_off) + Bytes24(h.frag_len)
  }

  function Read24(p: seq<byte>): nat
    requires |p| == 3
  {
    var a: nat, b: nat, c: nat := p[0], p[1], p[2];
    0x1_0000 * a + 256 * b + c
  }

  function ReadHeader(p: seq<byte>): (h: Header)
    requires |p| >= DTLS1_HM_HEADER_LENGTH
    ensures Fits(h)
  {
    Header(p[0], Read24(p[1..4]), Read16(p[4..6]), Read24(p[6..9]), Read24(p[9..12]))
  }

  /** dtls1_parse_fragment: a header and its body, and what is left. */
  function ParseFragment(p: seq<byte>): (r: Option<(Fragment, seq<byte>)>)
    ensures r.Some? ==> |r.value.1| < |p| && Fits(r.value.0.hdr) && |r.value.0.body| == r.value.0.hdr.frag_len
  {
    if |p| < DTLS1_HM_HEADER_LENGTH then None else
      var h := ReadHeader(p);
      var end := DTLS1_HM_HEADER_LENGTH + h.frag_len;
      if |p| < end then None else Some((Fragment(h, p[DTLS1_HM_HEADER_LENGTH..end]), p[end..]))
  }

  function EncodeFragment(f: Fragment): seq<byte>
    requires Fits(f.hdr)
  {
    EncodeHeader(f.hdr) + f.body
  }

  lemma Bytes24RoundTrip(n: nat)
    requires n < U24
    ensures Read24(Bytes24(n)) == n
  {
  }

  lemma HeaderRoundTrip(h: Header, more: seq<byte>)
    requires Fits(h)
    ensures ReadHeader(EncodeHeader(h) + more) == h
  {
    var p := EncodeHeader(h) + more;
    assert p[1..4] == Bytes24(h.msg_len) && p[4..6] == Bytes16(h.seq_) && p[6..9] == Bytes24(h.frag_off)
        && p[9..12] == Bytes24(h.frag_len);
    Bytes24RoundTrip(h.msg_len);
    Bytes24RoundTrip(h.frag_off);
    Bytes24RoundTrip(h.frag_len);
  }

  /** Parsing undoes encoding, whatever follows. */
  lemma FragmentRoundTrip(f: Fragment, more: seq<byte>)
    requires Fits(f.hdr) && f.hdr.frag_len == |f.body|
    ensures ParseFragment(EncodeFragment(f) + more) == Some((f, more))
  {
    hide ReadHeader, EncodeHeader;
    HeaderSize(f.hdr);
    assert EncodeFragment(f) + more == EncodeHeader(f.hdr) + (f.body + more);
    HeaderRoundTrip(f.hdr, f.body + more);
  }

  lemma HeaderSize(h: Header)
    requires Fits(h)
    ensures |EncodeHeader(h)| == DTLS1_HM_HEADER_LENGTH
  {
  }

  // ---------------------------------------------------------------- messages

  /** A handshake message as its sender means it. */
  datatype Message = Message(kind: byte, body: seq<byte>)

  /** `f` is a piece of message number `f.hdr.seq_` of `messages`. */
  predicate IsSlice(messages: seq<Message>, f: Fragment) {
    var h := f.hdr;
    && h.seq_ < |messages| && h.kind == messages[h.seq_].kind && h.msg_len == |messages[h.seq_].body|
    && h.frag_len == |f.body| && h.frag_off + h.frag_len <= h.msg_len
    && f.body == messages[h.seq_].body[h.frag_off..h.frag_off + h.frag_len]
  }

  /** The fragments a record consists of, or nothing if it is malformed. */
  function ParseRecordBody(p: seq<byte>): Option<seq<Fragment>>
    decreases |p|
  {
    if p == [] then Some([]) else
      var r := ParseFragment(p);
      if r == None then None else
        var rest := ParseRecordBody(r.value.1);
        if rest == None then None else Some([r.value.0] + rest.value)
  }
}
