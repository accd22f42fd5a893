/** The Ethernet + IPv4 case of the ARP packet format (RFC 826): an 8-byte
    fixed header followed by the sender hardware address, the sender
    protocol address, the target hardware address and the target protocol
    address, with every 16-bit field in network (big-endian) order. */
module ArpPacket {

  type Byte = x: int | 0 <= x < 256

  /** A 6-byte Ethernet hardware address. */
  type EthernetAddress = s: seq<Byte> | |s| == 6 witness [0, 0, 0, 0, 0, 0]

  /** A 4-byte IPv4 protocol address. */
  type Ip4Address = s: seq<Byte> | |s| == 4 witness [0, 0, 0, 0]

  const ARP_HARDWARE_TYPE_ETHERNET: int := 1
  const ARP_OPERATION_REQUEST: int := 1
  const ARP_OPERATION_REPLY: int := 2
  const IP4_PROTOCOL_NUMBER: int := 0x0800
  const ETHERNET_ADDRESS_SIZE: int := 6
  const IP4_ADDRESS_SIZE: int := 4

  /** sizeof(ARP_PACKET): hardware type, protocol type, the two address
      lengths and the operation. */
  const ARP_HEADER_SIZE: int := 8

  /** The size of an Ethernet + IPv4 packet. */
  const ARP_ETHERNET_IP4_SIZE: int := 28

  /** NETWORK_TO_CPU16 of two bytes in packet order. */
  function ReadBigEndian16(high: Byte, low: Byte): (v: int)
    ensures 0 <= v < 0x1_0000
  {
    high * 256 + low
  }

  /** CPU_TO_NETWORK16: the two bytes of `v`, most significant first. */
  function BigEndian16(v: int): (b: seq<Byte>)
    requires 0 <= v < 0x1_0000
    ensures |b| == 2 && ReadBigEndian16(b[0], b[1]) == v
  {
    [v / 256, v % 256]
  }

  /** Reading two bytes and writing the value back gives the same bytes. */
  lemma BigEndian16OfRead(high: Byte, low: Byte)
    ensures BigEndian16(ReadBigEndian16(high, low)) == [high, low]
  {
  }

  /** One ARP message with its four addresses. */
  datatype ArpMessage = ArpMessage(
    operation: int,
    senderHardware: EthernetAddress,
    senderProtocol: Ip4Address,
    targetHardware: EthernetAddress,
    targetProtocol: Ip4Address)

  predicate ValidOperation(m: ArpMessage) {
    0 <= m.operation < 0x1_0000
  }

  /** Why a received packet is skipped. */
  datatype DropReason = TooShort | NotEthernet | NotIp4

  datatype Parsed = Dropped(reason: DropReason) | Accepted(message: ArpMessage)

  /** The length check: shorter than the fixed header, or than the header
      plus the four addresses whose lengths the header announces. */
  predicate TooShortFor(p: seq<Byte>) {
    |p| < ARP_HEADER_SIZE || |p| < ARP_HEADER_SIZE + 2 * (p[5] as int) + 2 * (p[4] as int)
  }

  /** The hardware check: type Ethernet with 6-byte addresses. */
  predicate EthernetHeader(p: seq<Byte>)
    requires |p| >= ARP_HEADER_SIZE
  {
    ReadBigEndian16(p[0], p[1]) == ARP_HARDWARE_TYPE_ETHERNET && p[4] == ETHERNET_ADDRESS_SIZE
  }

  /** The protocol check: IPv4 with 4-byte addresses. */
  predicate Ip4Header(p: seq<Byte>)
    requires |p| >= ARP_HEADER_SIZE
  {
    ReadBigEndian16(p[2], p[3]) == IP4_PROTOCOL_NUMBER && p[5] == IP4_ADDRESS_SIZE
  }

  /** The checks and field reads of NetpArpProcessReceivedData
      (arp.c:484-542). */
  function Parse(p: seq<Byte>): (r: Parsed)
    ensures r == Dropped(TooShort) <==> TooShortFor(p)
    ensures r == Dropped(NotEthernet) <==> !TooShortFor(p) && !EthernetHeader(p)
    ensures r == Dropped(NotIp4) <==> !TooShortFor(p) && EthernetHeader(p) && !Ip4Header(p)
    ensures r.Accepted? ==>
      && |p| >= ARP_ETHERNET_IP4_SIZE
      && r.message.operation == ReadBigEndian16(p[6], p[7])
      && r.message.senderHardware == p[8..14]
      && r.message.senderProtocol == p[14..18]
      && r.message.targetHardware == p[18..24]
      && r.message.targetProtocol == p[24..28]
  {
    if TooShortFor(p) then Dropped(TooShort)
    else if !EthernetHeader(p) then Dropped(NotEthernet)
    else if !Ip4Header(p) then Dropped(NotIp4)
    else
      Accepted(ArpMessage(ReadBigEndian16(p[6], p[7]), p[8..14], p[14..18], p[18..24], p[24..28]))
  }

  /** The fixed header of an Ethernet + IPv4 packet with the given
      operation. */
  function Header(operation: int): (h: seq<Byte>)
    requires 0 <= operation < 0x1_0000
    ensures |h| == ARP_HEADER_SIZE
  {
    BigEndian16(ARP_HARDWARE_TYPE_ETHERNET) + BigEndian16(IP4_PROTOCOL_NUMBER)
    + [ETHERNET_ADDRESS_SIZE, IP4_ADDRESS_SIZE] + BigEndian16(operation)
  }

  /** The 28 bytes the senders write (arp.c:291-339, 743-810). */
  function Encode(m: ArpMessage): (p: seq<Byte>)
    requires ValidOperation(m)
    ensures |p| == ARP_ETHERNET_IP4_SIZE
  {
    Header(m.operation) + m.senderHardware + m.senderProtocol + m.targetHardware + m.targetProtocol
  }

  /** A packet is accepted exactly when it holds at least 28 bytes and its
      header announces Ethernet and IPv4 with their address lengths; the
      operation bytes are free. */
  lemma AcceptedPackets(p: seq<Byte>)
    ensures Parse(p).Accepted? <==>
      && |p| >= ARP_ETHERNET_IP4_SIZE
      && p[..6] == [0, 1, 8, 0, 6, 4]
  {
    if |p| >= ARP_ETHERNET_IP4_SIZE && p[..6] == [0, 1, 8, 0, 6, 4] {
      assert p[0] == 0 && p[1] == 1 && p[2] == 8 && p[3] == 0 && p[4] == 6 && p[5] == 4;
    }
  }

  /** The writer and the reader agree: parsing an encoded message passes
      every check and gives the message back. */
  lemma ParseEncode(m: ArpMessage)
    requires ValidOperation(m)
    ensures Parse(Encode(m)) == Accepted(m)
  {
    var p := Encode(m);
    var addresses := m.senderHardware + m.senderProtocol + m.targetHardware;
    assert p == Header(m.operation) + addresses + m.targetProtocol;
    assert p[..8] == Header(m.operation);
    assert p[8..24] == addresses;
    assert p[8..14] == m.senderHardware;
    assert p[14..18] == m.senderProtocol;
    assert p[18..24] == m.targetHardware;
    assert p[24..] == m.targetProtocol;
    assert p[24..28] == m.targetProtocol;
  }

  /** The other direction: an accepted packet is the encoding of what was
      read from it, followed by whatever trailing bytes it carried. */
  lemma EncodeParse(p: seq<Byte>)
    requires Parse(p).Accepted?
    ensures ValidOperation(Parse(p).message)
    ensures Encode(Parse(p).message) + p[ARP_ETHERNET_IP4_SIZE..] == p
  {
    var m := Parse(p).message;
    BigEndian16OfRead(p[6], p[7]);
    assert Header(m.operation) == p[..8];
    assert p == p[..8] + p[8..14] + p[14..18] + p[18..24] + p[24..28] + p[28..];
  }

  /** The request NetpArpSendRequest builds: the link's addresses as
      sender, an all-zero target hardware address and the queried
      protocol address. */
  function RequestMessage(linkPhysical: EthernetAddress, linkAddress: Ip4Address, query: Ip4Address): (m: ArpMessage)
    ensures ValidOperation(m)
  {
    ArpMessage(ARP_OPERATION_REQUEST, linkPhysical, linkAddress, [0, 0, 0, 0, 0, 0], query)
  }

  /** The reply NetpArpSendReply builds: the link's addresses as sender
      and the destination's as target. */
  function ReplyMessage(linkPhysical: EthernetAddress, linkAddress: Ip4Address,
                        destinationPhysical: EthernetAddress, destinationNetwork: Ip4Address): (m: ArpMessage)
    ensures ValidOperation(m)
  {
    ArpMessage(ARP_OPERATION_REPLY, linkPhysical, linkAddress, destinationPhysical, destinationNetwork)
  }
}
