/** The ARP network layer over one link: building and sending requests and
    replies, and reacting to received packets.  Buffer allocation
    (NetAllocateBuffer), the data link's Send routine and the address
    lookup NetFindEntryForAddress are collaborators whose bodies are not
    part of this model: their answers are supplied as oracle arguments.
    NetAddNetworkAddressTranslation appends to the link's translation log. */
module Arp {
  import opened KernelStatus
  import opened ArpPacket

  /** A NET_LINK_ADDRESS_ENTRY: the link's hardware address, its IPv4
      address and whether that address is configured. */
  datatype LinkAddressEntry = LinkAddressEntry(physical: EthernetAddress, address: Ip4Address, configured: bool)

  /** A network-to-physical translation learned from a packet. */
  datatype Translation = Translation(network: Ip4Address, physical: EthernetAddress)

  /** A packet handed to the data link: source and destination hardware
      addresses (None: broadcast) and the ARP bytes. */
  datatype Frame = Frame(source: EthernetAddress, destination: Option<EthernetAddress>, payload: seq<Byte>)

  /** What NetAllocateBuffer and the data link's Send report. */
  datatype SendOracle = SendOracle(allocate: Status, send: Status)

  /** What sending an ARP packet of `linkAddress` reports: the allocation
      failure, NoNetworkConnection for an unconfigured address, or the
      data link's answer (arp.c:264-375, 717-850). */
  function SendStatus(linkAddress: LinkAddressEntry, oracle: SendOracle): (s: Status)
    ensures s == Success <==> oracle.allocate == Success && linkAddress.configured && oracle.send == Success
    ensures oracle.allocate == Success && !linkAddress.configured ==> s == NoNetworkConnection
  {
    if oracle.allocate != Success then oracle.allocate
    else if !linkAddress.configured then NoNetworkConnection
    else oracle.send
  }

  /** The frame NetpArpSendRequest hands to the data link: broadcast, from
      the link's hardware address. */
  function RequestFrame(linkAddress: LinkAddressEntry, query: Ip4Address): Frame {
    Frame(linkAddress.physical, None, Encode(RequestMessage(linkAddress.physical, linkAddress.address, query)))
  }

  /** The frame NetpArpSendReply hands to the data link: addressed to the
      destination's hardware address. */
  function ReplyFrame(linkAddress: LinkAddressEntry, destinationNetwork: Ip4Address,
                      destinationPhysical: EthernetAddress): Frame
  {
    Frame(linkAddress.physical, Some(destinationPhysical),
          Encode(ReplyMessage(linkAddress.physical, linkAddress.address, destinationPhysical, destinationNetwork)))
  }

  /** The state of a link as ARP sees it: the translations it was given and
      the frames its data link accepted for transmission. */
  class Link {
    var translations: seq<Translation>
    var sent: seq<Frame>

    constructor ()
      ensures translations == [] && sent == []
    {
      translations := [];
      sent := [];
    }

    /** NetAddNetworkAddressTranslation. */
    method AddTranslation(network: Ip4Address, physical: EthernetAddress)
      modifies this`translations
      ensures translations == old(translations) + [Translation(network, physical)]
    {
      translations := translations + [Translation(network, physical)];
    }

    /** The data link's Send: the frame is queued when Send succeeds and
        the packet list destroyed otherwise. */
    method Transmit(frame: Frame, outcome: Status) returns (status: Status)
      modifies this`sent
      ensures status == outcome
      ensures sent == if outcome == Success then old(sent) + [frame] else old(sent)
    {
      status := outcome;
      if outcome == Success {
        sent := sent + [frame];
      }
    }
  }

  /** RtlCopyMemory into the packet at the cursor; returns the advanced
      cursor. */
  method CopyAt(buffer: array<Byte>, cursor: nat, bytes: seq<Byte>) returns (next: nat)
    requires cursor + |bytes| <= buffer.Length
    modifies buffer
    ensures next == cursor + |bytes|
    ensures buffer[..] == old(buffer[..cursor]) + bytes + old(buffer[next..])
  {
    forall i | 0 <= i < |bytes| {
      buffer[cursor + i] := bytes[i];
    }
    next := cursor + |bytes|;
    assert buffer[..] == old(buffer[..cursor]) + bytes + old(buffer[next..]);
  }

  /** Write the fixed header field by field as the senders do. */
  method WriteHeader(buffer: array<Byte>, operation: int)
    requires buffer.Length == ARP_ETHERNET_IP4_SIZE && 0 <= operation < 0x1_0000
    modifies buffer
    ensures buffer[..ARP_HEADER_SIZE] == Header(operation)
    ensures buffer[ARP_HEADER_SIZE..] == old(buffer[ARP_HEADER_SIZE..])
  {
    var hardwareType := BigEndian16(ARP_HARDWARE_TYPE_ETHERNET);
    var protocolType := BigEndian16(IP4_PROTOCOL_NUMBER);
    var operationField := BigEndian16(operation);
    buffer[0], buffer[1] := hardwareType[0], hardwareType[1];
    buffer[2], buffer[3] := protocolType[0], protocolType[1];
    buffer[4] := ETHERNET_ADDRESS_SIZE;
    buffer[5] := IP4_ADDRESS_SIZE;
    buffer[6], buffer[7] := operationField[0], operationField[1];
    var header := Header(operation);
    assert header == hardwareType + protocolType + [ETHERNET_ADDRESS_SIZE, IP4_ADDRESS_SIZE] + operationField;
    assert forall i :: 0 <= i < ARP_HEADER_SIZE ==> buffer[i] == header[i];
    assert buffer[..ARP_HEADER_SIZE] == Header(operation);
  }

  /** NetpArpSendRequest (arp.c:205-378): a broadcast asking who owns
      `query`. */
  method SendRequest(link: Link, linkAddress: LinkAddressEntry, query: Ip4Address, oracle: SendOracle)
    returns (status: Status)
    modifies link
    ensures status == SendStatus(linkAddress, oracle)
    ensures link.sent == if status == Success then old(link.sent) + [RequestFrame(linkAddress, query)]
                         else old(link.sent)
    ensures link.translations == old(link.translations)
  {
    if oracle.allocate != Success {
      return oracle.allocate;
    }
    var packet := new Byte[ARP_ETHERNET_IP4_SIZE](_ => 0);
    WriteHeader(packet, ARP_OPERATION_REQUEST);
    var cursor := CopyAt(packet, ARP_HEADER_SIZE, linkAddress.physical);
    if !linkAddress.configured {
      return NoNetworkConnection;
    }
    cursor := CopyAt(packet, cursor, linkAddress.address);
    cursor := CopyAt(packet, cursor, [0, 0, 0, 0, 0, 0]);
    cursor := CopyAt(packet, cursor, query);
    assert cursor == ARP_ETHERNET_IP4_SIZE;
    assert packet[..] == Encode(RequestMessage(linkAddress.physical, linkAddress.address, query));
    status := link.Transmit(Frame(linkAddress.physical, None, packet[..]), oracle.send);
  }

  /** NetpArpSendReply (arp.c:654-853): tell the destination that the
      link's address is at the link's hardware address. */
  method SendReply(link: Link, linkAddress: LinkAddressEntry, destinationNetwork: Ip4Address,
                   destinationPhysical: EthernetAddress, oracle: SendOracle)
    returns (status: Status)
    modifies link
    ensures status == SendStatus(linkAddress, oracle)
    ensures link.sent == if status == Success
                         then old(link.sent) + [ReplyFrame(linkAddress, destinationNetwork, destinationPhysical)]
                         else old(link.sent)
    ensures link.translations == old(link.translations)
  {
    if oracle.allocate != Success {
      return oracle.allocate;
    }
    var packet := new Byte[ARP_ETHERNET_IP4_SIZE](_ => 0);
    WriteHeader(packet, ARP_OPERATION_REPLY);
    var cursor := CopyAt(packet, ARP_HEADER_SIZE, linkAddress.physical);
    if !linkAddress.configured {
      return NoNetworkConnection;
    }
    cursor := CopyAt(packet, cursor, linkAddress.address);
    cursor := CopyAt(packet, cursor, destinationPhysical);
    cursor := CopyAt(packet, cursor, destinationNetwork);
    assert cursor == ARP_ETHERNET_IP4_SIZE;
    assert packet[..] == Encode(ReplyMessage(linkAddress.physical, linkAddress.address,
                                             destinationPhysical, destinationNetwork));
    status := link.Transmit(Frame(linkAddress.physical, Some(destinationPhysical), packet[..]), oracle.send);
  }

  /** What a received packet does to the link: the translations it adds
      and the frames it sends. */
  datatype Reaction = Reaction(learned: seq<Translation>, replies: seq<Frame>)

  /** The frames a reply leaves queued. */
  function ReplySent(linkAddress: LinkAddressEntry, destinationNetwork: Ip4Address,
                     destinationPhysical: EthernetAddress, oracle: SendOracle): seq<Frame>
  {
    if SendStatus(linkAddress, oracle) == Success
    then [ReplyFrame(linkAddress, destinationNetwork, destinationPhysical)]
    else []
  }

  /** The dispatch of NetpArpProcessReceivedData (arp.c:544-607):
      `findEntry` stands for NetFindEntryForAddress on the link. */
  function React(packet: seq<Byte>, findEntry: Ip4Address -> Option<LinkAddressEntry>, oracle: SendOracle): Reaction
  {
    match Parse(packet)
    case Dropped(_) => Reaction([], [])
    case Accepted(m) =>
      var learned := Translation(m.senderProtocol, m.senderHardware);
      if m.operation == ARP_OPERATION_REQUEST then
        match findEntry(m.targetProtocol)
        case None => Reaction([], [])
        case Some(entry) => Reaction([learned], ReplySent(entry, m.senderProtocol, m.senderHardware, oracle))
      else if m.operation == ARP_OPERATION_REPLY then Reaction([learned], [])
      else Reaction([], [])
  }

  /** NetpArpProcessReceivedData (arp.c:438-608). */
  method ProcessReceivedData(link: Link, packet: seq<Byte>, findEntry: Ip4Address -> Option<LinkAddressEntry>,
                             oracle: SendOracle)
    modifies link
    ensures link.translations == old(link.translations) + React(packet, findEntry, oracle).learned
    ensures link.sent == old(link.sent) + React(packet, findEntry, oracle).replies
  {
    var parsed := Parse(packet);
    if parsed.Dropped? {
      return;
    }
    var message := parsed.message;
    if message.operation == ARP_OPERATION_REQUEST {
      var entry := findEntry(message.targetProtocol);
      if entry.None? {
        return;
      }
      link.AddTranslation(message.senderProtocol, message.senderHardware);
      var ignored := SendReply(link, entry.value, message.senderProtocol, message.senderHardware, oracle);
      return;
    } else if message.operation != ARP_OPERATION_REPLY {
      return;
    }
    link.AddTranslation(message.senderProtocol, message.senderHardware);
  }

  /** A packet that fails the length, hardware or protocol check changes
      nothing. */
  lemma DroppedPacketsChangeNothing(packet: seq<Byte>, findEntry: Ip4Address -> Option<LinkAddressEntry>,
                                    oracle: SendOracle)
    requires TooShortFor(packet) || !EthernetHeader(packet) || !Ip4Header(packet)
    ensures React(packet, findEntry, oracle) == Reaction([], [])
  {
  }

  /** An accepted packet is remembered exactly when it is a reply, or a
      request for an address the link owns; only such a request is
      answered, at most once, and never with anything but the reply to
      its sender. */
  lemma ReactionByOperation(packet: seq<Byte>, findEntry: Ip4Address -> Option<LinkAddressEntry>,
                            oracle: SendOracle)
    requires Parse(packet).Accepted?
    ensures var m := Parse(packet).message;
      var r := React(packet, findEntry, oracle);
      && (r.learned != [] <==>
            m.operation == ARP_OPERATION_REPLY
            || (m.operation == ARP_OPERATION_REQUEST && findEntry(m.targetProtocol).Some?))
      && (r.learned != [] ==> r.learned == [Translation(packet[14..18], packet[8..14])])
      && |r.replies| <= 1
      && (r.replies != [] ==>
            && m.operation == ARP_OPERATION_REQUEST && findEntry(m.targetProtocol).Some?
            && r.replies[0].destination == Some(m.senderHardware))
  {
  }

  /** A request for an address the link owns, with the link configured
      and the collaborators succeeding, is answered with a reply to the
      sender's hardware address whose bytes parse back as a reply that
      carries the link's addresses as sender and the requester's as
      target. */
  lemma RequestIsAnswered(packet: seq<Byte>, findEntry: Ip4Address -> Option<LinkAddressEntry>,
                          oracle: SendOracle)
    requires Parse(packet).Accepted? && Parse(packet).message.operation == ARP_OPERATION_REQUEST
    requires findEntry(Parse(packet).message.targetProtocol).Some?
    requires findEntry(Parse(packet).message.targetProtocol).value.configured
    requires oracle == SendOracle(Success, Success)
    ensures var entry := findEntry(packet[24..28]).value;
      var r := React(packet, findEntry, oracle);
      && |r.replies| == 1
      && r.replies[0].source == entry.physical
      && r.replies[0].destination.Some? && r.replies[0].destination.value == packet[8..14]
      && Parse(r.replies[0].payload)
         == Accepted(ArpMessage(ARP_OPERATION_REPLY, entry.physical, entry.address, packet[8..14], packet[14..18]))
  {
    var m := Parse(packet).message;
    var entry := findEntry(m.targetProtocol).value;
    ParseEncode(ReplyMessage(entry.physical, entry.address, m.senderHardware, m.senderProtocol));
  }

  /** A whole exchange: host A broadcasts a request for `query`; host B,
      which owns `query`, learns A's translation and replies; A, receiving
      the reply, learns that `query` is at B's hardware address. */
  lemma RequestReplyExchange(a: LinkAddressEntry, query: Ip4Address, b: LinkAddressEntry,
                             findAtA: Ip4Address -> Option<LinkAddressEntry>,
                             findAtB: Ip4Address -> Option<LinkAddressEntry>)
    requires a.configured && b.configured && b.address == query
    requires findAtB(query) == Some(b)
    ensures var ok := SendOracle(Success, Success);
      var atB := React(RequestFrame(a, query).payload, findAtB, ok);
      && atB.learned == [Translation(a.address, a.physical)]
      && atB.replies == [ReplyFrame(b, a.address, a.physical)]
      && React(atB.replies[0].payload, findAtA, ok) == Reaction([Translation(query, b.physical)], [])
  {
    var request := RequestMessage(a.physical, a.address, query);
    ParseEncode(request);
    var reply := ReplyMessage(b.physical, b.address, a.physical, a.address);
    ParseEncode(reply);
  }
}
