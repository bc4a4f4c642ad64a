/**
  The fixed header that precedes every inter-daemon message, and the two
  macros that convert it between host and network byte order
  (src/rml/rml_hdr.h).

  The header holds the origin and destination process names, the routing
  tag, a sequence number, the payload length and a one-byte message type.
  HTON and NTOH convert only four fields (the two ranks, the tag and the
  payload length); the sequence number, the type byte and the namespace
  strings are left as they are.

  Byte order is explicit: a host is big- or little-endian, and `Store` /
  `Load` give the bytes a 32-bit value occupies in that host's memory,
  lowest address first.
*/
module RmlHdr {
  import opened Types

  // ---- message types ----
  const RML_IDENT: uint8 := 1
  const RML_PROBE: uint8 := 2
  const RML_PING: uint8 := 3
  const RML_USER: uint8 := 4

  /** The four message types are the distinct values 1 to 4. */
  lemma MessageTypes()
    ensures [RML_IDENT, RML_PROBE, RML_PING, RML_USER] == [1, 2, 3, 4]
  {
  }

  datatype ByteOrder = BigEndian | LittleEndian

  /** prte_rml_hdr_t. The tag is a 32-bit value. */
  datatype Hdr = Hdr(origin: ProcName, dst: ProcName, tag: uint32, seqNum: uint32, nbytes: uint32, msgType: uint8)

  /** The four bytes of `x`, most significant first: network byte order. */
  function Bytes(x: uint32): (b: seq<uint8>)
    ensures |b| == 4
  {
    var x1 := x / 0x100;
    var x2 := x1 / 0x100;
    [x2 / 0x100, x2 % 0x100, x1 % 0x100, x % 0x100]
  }

  /** The value whose network-order bytes are `b`. */
  function FromBytes(b: seq<uint8>): uint32
    requires |b| == 4
  {
    ((b[0] as int * 0x100 + b[1]) * 0x100 + b[2]) * 0x100 + b[3]
  }

  lemma FromBytesOfBytes(x: uint32)
    ensures FromBytes(Bytes(x)) == x
  {
    var x1 := x / 0x100;
    var x2 := x1 / 0x100;
    assert x == x1 * 0x100 + x % 0x100;
    assert x1 == x2 * 0x100 + x1 % 0x100;
    assert x2 == (x2 / 0x100) * 0x100 + x2 % 0x100;
  }

  lemma BytesOfFromBytes(b: seq<uint8>)
    requires |b| == 4
    ensures Bytes(FromBytes(b)) == b
  {
    var x2 := b[0] as int * 0x100 + b[1];
    var x1 := x2 * 0x100 + b[2];
    var x := x1 * 0x100 + b[3];
    assert x / 0x100 == x1 && x % 0x100 == b[3];
    assert x1 / 0x100 == x2 && x1 % 0x100 == b[2];
    assert x2 / 0x100 == b[0] && x2 % 0x100 == b[1];
  }

  function Reverse4(b: seq<uint8>): (r: seq<uint8>)
    requires |b| == 4
    ensures |r| == 4
  {
    [b[3], b[2], b[1], b[0]]
  }

  /** The bytes `x` occupies in the memory of a host of order `host`, lowest address first. */
  function Store(x: uint32, host: ByteOrder): (b: seq<uint8>)
    ensures |b| == 4
  {
    if host == BigEndian then Bytes(x) else Reverse4(Bytes(x))
  }

  /** The value a host of order `host` reads from the four bytes `b` in its memory. */
  function Load(b: seq<uint8>, host: ByteOrder): uint32
    requires |b| == 4
  {
    FromBytes(if host == BigEndian then b else Reverse4(b))
  }

  /** Reversing the byte order of a 32-bit value. */
  function ByteSwap(x: uint32): uint32
  {
    FromBytes(Reverse4(Bytes(x)))
  }

  /** htonl on a host of order `host`; the tag conversion macros are htonl on the 32-bit tag. */
  function Htonl(x: uint32, host: ByteOrder): uint32
  {
    if host == LittleEndian then ByteSwap(x) else x
  }

  /** ntohl on a host of order `host`. */
  function Ntohl(x: uint32, host: ByteOrder): uint32
  {
    if host == LittleEndian then ByteSwap(x) else x
  }

  lemma ByteSwapInvolutive(x: uint32)
    ensures ByteSwap(ByteSwap(x)) == x
  {
    BytesOfFromBytes(Reverse4(Bytes(x)));
    assert Reverse4(Reverse4(Bytes(x))) == Bytes(x);
    FromBytesOfBytes(x);
  }

  /** What htonl is for: its result lies in host memory in network byte order. */
  lemma HtonlStoresNetworkOrder(x: uint32, host: ByteOrder)
    ensures Store(Htonl(x, host), host) == Bytes(x)
  {
    if host == LittleEndian {
      BytesOfFromBytes(Reverse4(Bytes(x)));
      assert Reverse4(Reverse4(Bytes(x))) == Bytes(x);
    }
  }

  /** What ntohl is for: network-order bytes read on any host and converted give their value. */
  lemma NtohlLoadsNetworkOrder(b: seq<uint8>, host: ByteOrder)
    requires |b| == 4
    ensures Ntohl(Load(b, host), host) == FromBytes(b)
  {
    if host == LittleEndian {
      BytesOfFromBytes(Reverse4(b));
      assert Reverse4(Reverse4(b)) == b;
    }
  }

  lemma NtohlHtonl(x: uint32, host: ByteOrder)
    ensures Ntohl(Htonl(x, host), host) == x
    ensures Htonl(Ntohl(x, host), host) == x
  {
    ByteSwapInvolutive(x);
  }

  /** RML_HDR_HTON: the two ranks, the tag and the length go to network order. */
  function Hton(h: Hdr, host: ByteOrder): Hdr
  {
    h.(origin := h.origin.(rank := Htonl(h.origin.rank, host)),
       dst := h.dst.(rank := Htonl(h.dst.rank, host)),
       tag := Htonl(h.tag, host),
       nbytes := Htonl(h.nbytes, host))
  }

  /** RML_HDR_NTOH: the same four fields back to host order. */
  function Ntoh(h: Hdr, host: ByteOrder): Hdr
  {
    h.(origin := h.origin.(rank := Ntohl(h.origin.rank, host)),
       dst := h.dst.(rank := Ntohl(h.dst.rank, host)),
       tag := Ntohl(h.tag, host),
       nbytes := Ntohl(h.nbytes, host))
  }

  /**
    Neither macro touches the sequence number, the type byte or the two
    namespaces; on a big-endian host both are the identity.
  */
  lemma ConversionsLeaveOtherFields(h: Hdr, host: ByteOrder)
    ensures Hton(h, host).seqNum == h.seqNum && Ntoh(h, host).seqNum == h.seqNum
    ensures Hton(h, host).msgType == h.msgType && Ntoh(h, host).msgType == h.msgType
    ensures Hton(h, host).origin.nspace == h.origin.nspace && Ntoh(h, host).origin.nspace == h.origin.nspace
    ensures Hton(h, host).dst.nspace == h.dst.nspace && Ntoh(h, host).dst.nspace == h.dst.nspace
    ensures host == BigEndian ==> Hton(h, host) == h && Ntoh(h, host) == h
  {
  }

  /** On a little-endian host HTON reverses the bytes of exactly the four converted fields. */
  lemma HtonReversesFourFields(h: Hdr)
    ensures var n := Hton(h, LittleEndian);
      && Bytes(n.origin.rank) == Reverse4(Bytes(h.origin.rank))
      && Bytes(n.dst.rank) == Reverse4(Bytes(h.dst.rank))
      && Bytes(n.tag) == Reverse4(Bytes(h.tag))
      && Bytes(n.nbytes) == Reverse4(Bytes(h.nbytes))
  {
    BytesOfFromBytes(Reverse4(Bytes(h.origin.rank)));
    BytesOfFromBytes(Reverse4(Bytes(h.dst.rank)));
    BytesOfFromBytes(Reverse4(Bytes(h.tag)));
    BytesOfFromBytes(Reverse4(Bytes(h.nbytes)));
  }

  /** NTOH undoes HTON, and HTON undoes NTOH, on either kind of host. */
  lemma NtohHton(h: Hdr, host: ByteOrder)
    ensures Ntoh(Hton(h, host), host) == h
    ensures Hton(Ntoh(h, host), host) == h
  {
    NtohlHtonl(h.origin.rank, host);
    NtohlHtonl(h.dst.rank, host);
    NtohlHtonl(h.tag, host);
    NtohlHtonl(h.nbytes, host);
  }

  /** The header's bytes on the wire: the namespaces as text, each number as four bytes. */
  datatype WireHdr = WireHdr(
    originNspace: string, originRank: seq<uint8>,
    dstNspace: string, dstRank: seq<uint8>,
    tag: seq<uint8>, seqNum: seq<uint8>, nbytes: seq<uint8>, msgType: uint8)
  {
    ghost predicate WellFormed() {
      |originRank| == 4 && |dstRank| == 4 && |tag| == 4 && |seqNum| == 4 && |nbytes| == 4
    }
  }

  /** A sender of order `host` applies HTON and transmits the header's memory as it then is. */
  function Transmit(h: Hdr, host: ByteOrder): (w: WireHdr)
    ensures w.WellFormed()
  {
    var n := Hton(h, host);
    WireHdr(n.origin.nspace, Store(n.origin.rank, host), n.dst.nspace, Store(n.dst.rank, host),
            Store(n.tag, host), Store(n.seqNum, host), Store(n.nbytes, host), n.msgType)
  }

  /** A receiver of order `host` reads the header's memory and applies NTOH. */
  function Receive(w: WireHdr, host: ByteOrder): Hdr
    requires w.WellFormed()
  {
    Ntoh(Hdr(ProcName(w.originNspace, Load(w.originRank, host)), ProcName(w.dstNspace, Load(w.dstRank, host)),
             Load(w.tag, host), Load(w.seqNum, host), Load(w.nbytes, host), w.msgType), host)
  }

  lemma {:induction false} ConvertedFieldCrosses(x: uint32, sender: ByteOrder, receiver: ByteOrder)
    ensures Ntohl(Load(Store(Htonl(x, sender), sender), receiver), receiver) == x
  {
    HtonlStoresNetworkOrder(x, sender);
    NtohlLoadsNetworkOrder(Bytes(x), receiver);
    FromBytesOfBytes(x);
  }

  /**
    A header sent by a host of one byte order and received by a host of any
    order arrives with every field intact except the sequence number, which
    arrives as the receiver reads the sender's native bytes.
  */
  lemma Exchange(h: Hdr, sender: ByteOrder, receiver: ByteOrder)
    ensures var r := Receive(Transmit(h, sender), receiver);
      && r.origin == h.origin && r.dst == h.dst && r.tag == h.tag && r.nbytes == h.nbytes
      && r.msgType == h.msgType
      && r.seqNum == Load(Store(h.seqNum, sender), receiver)
  {
    ConvertedFieldCrosses(h.origin.rank, sender, receiver);
    ConvertedFieldCrosses(h.dst.rank, sender, receiver);
    ConvertedFieldCrosses(h.tag, sender, receiver);
    ConvertedFieldCrosses(h.nbytes, sender, receiver);
  }

  /** Between hosts of the same byte order the whole header arrives intact. */
  lemma ExchangeSameOrder(h: Hdr, host: ByteOrder)
    ensures Receive(Transmit(h, host), host) == h
  {
    Exchange(h, host, host);
    if host == BigEndian {
      FromBytesOfBytes(h.seqNum);
    } else {
      assert Reverse4(Reverse4(Bytes(h.seqNum))) == Bytes(h.seqNum);
      FromBytesOfBytes(h.seqNum);
    }
  }

  /** Between hosts of different byte orders the sequence number arrives byte-reversed. */
  lemma ExchangeMixedOrder(h: Hdr)
    ensures Receive(Transmit(h, LittleEndian), BigEndian).seqNum == ByteSwap(h.seqNum)
    ensures Receive(Transmit(h, BigEndian), LittleEndian).seqNum == ByteSwap(h.seqNum)
  {
    Exchange(h, LittleEndian, BigEndian);
    Exchange(h, BigEndian, LittleEndian);
  }

  /** For instance, sequence number 1 from a little-endian host reads as 2^24 on a big-endian one. */
  lemma SequenceNumberOneMisread(h: Hdr)
    requires h.seqNum == 1
    ensures Receive(Transmit(h, LittleEndian), BigEndian).seqNum == 0x100_0000
  {
    ExchangeMixedOrder(h);
    assert Bytes(1) == [0, 0, 0, 1];
    assert Reverse4(Bytes(1)) == [1, 0, 0, 0];
  }

  /** seq_num as a fresh send object holds it (all bits set) is the same in either byte order. */
  lemma InitialSequenceNumberCrosses(h: Hdr, sender: ByteOrder, receiver: ByteOrder)
    requires h.seqNum == 0xFFFF_FFFF
    ensures Receive(Transmit(h, sender), receiver) == h
  {
    Exchange(h, sender, receiver);
  }
}
