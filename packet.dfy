/**
 * The layered record of one captured TCP/IPv4 packet and its three derived
 * accessors (src/packet.rs).
 */
module Packet {

  /** Rust's fixed-width unsigned integers, as bounded integers. */
  type u8 = x: int | 0 <= x < 0x100
  type u16 = x: int | 0 <= x < 0x1_0000
  type u32 = x: int | 0 <= x < 0x1_0000_0000

  /** `[u8; 6]` and `[u8; 4]`: byte sequences of fixed length. */
  type MacAddress = s: seq<u8> | |s| == 6 witness [0, 0, 0, 0, 0, 0]
  type Ipv4Address = s: seq<u8> | |s| == 4 witness [0, 0, 0, 0]

  /** The capture time (`DateTime<Utc>`), taken as an opaque integer. */
  type Timestamp = int

  datatype EthernetFrame = EthernetFrame(
    sourceMac: MacAddress,
    destinationMac: MacAddress,
    ethertype: u16,
    frameCheckSequence: u32)

  datatype IPv4Flags = IPv4Flags(reserved: bool, dontFragment: bool, moreFragments: bool)

  datatype IPv4Packet = IPv4Packet(
    version: u8,
    ihl: u8,
    dscp: u8,
    ecn: u8,
    totalLength: u16,
    identification: u16,
    flags: IPv4Flags,
    fragmentOffset: u16,
    ttl: u8,
    protocol: u8,
    headerChecksum: u16,
    sourceIp: Ipv4Address,
    destinationIp: Ipv4Address,
    options: seq<u8>)

  datatype TCPFlags = TCPFlags(
    fin: bool, syn: bool, rst: bool, psh: bool,
    ack: bool, urg: bool, ece: bool, cwr: bool)

  datatype TCPOption = TCPOption(kind: u8, length: u8, data: seq<u8>)

  datatype TCPSegment = TCPSegment(
    sourcePort: u16,
    destinationPort: u16,
    sequenceNumber: u32,
    acknowledgmentNumber: u32,
    dataOffset: u8,
    flags: TCPFlags,
    windowSize: u16,
    checksum: u16,
    urgentPointer: u16,
    options: seq<TCPOption>)

  /** Six well-known protocols and a free-form fallback label. */
  datatype ApplicationProtocol = HTTP | HTTPS | FTP | SSH | SMTP | DNS | Custom(name: string)

  datatype ApplicationData = ApplicationData(protocol: ApplicationProtocol, payload: seq<u8>)

  datatype NetworkPacket = NetworkPacket(
    timestamp: Timestamp,
    ethernetLayer: EthernetFrame,
    ipLayer: IPv4Packet,
    tcpLayer: TCPSegment,
    applicationLayer: ApplicationData)

  /** Fixed header sizes counted by `total_size`. */
  const EthernetHeaderSize := 14   // without the frame check sequence
  const IPv4HeaderSize := 20
  const TcpHeaderSize := 20
  /** The size of a packet with no options and no payload. */
  const MinimumSize := EthernetHeaderSize + IPv4HeaderSize + TcpHeaderSize

  /** The sum of the declared `length` fields of a list of TCP options. */
  function OptionLengthSum(options: seq<TCPOption>): (r: nat)
    ensures r <= 0xFF * |options|
    ensures options == [] ==> r == 0
  {
    if options == [] then 0 else options[0].length + OptionLengthSum(options[1..])
  }

  /** `total_size`: header sizes, IPv4 option bytes, declared TCP option lengths and payload. */
  function TotalSize(p: NetworkPacket): (r: nat)
    ensures r >= MinimumSize + |p.applicationLayer.payload|
  {
    EthernetHeaderSize
    + IPv4HeaderSize + |p.ipLayer.options|
    + TcpHeaderSize + OptionLengthSum(p.tcpLayer.options)
    + |p.applicationLayer.payload|
  }

  /** `is_handshake`: the packet opens or closes a connection. */
  predicate IsHandshake(p: NetworkPacket) {
    p.tcpLayer.flags.syn || p.tcpLayer.flags.fin
  }

  /** `get_protocol_string`: the display label of the application protocol. */
  function ProtocolString(p: NetworkPacket): (r: string)
    ensures p.applicationLayer.protocol.Custom? ==> r == p.applicationLayer.protocol.name
    ensures !p.applicationLayer.protocol.Custom? ==> r in KnownLabels
  {
    match p.applicationLayer.protocol
    case HTTP => "HTTP"
    case HTTPS => "HTTPS"
    case FTP => "FTP"
    case SSH => "SSH"
    case SMTP => "SMTP"
    case DNS => "DNS"
    case Custom(name) => name
  }

  /** The labels of the six well-known protocols. */
  const KnownLabels: set<string> := {"HTTP", "HTTPS", "FTP", "SSH", "SMTP", "DNS"}

  function WithPayload(p: NetworkPacket, payload: seq<u8>): NetworkPacket {
    p.(applicationLayer := p.applicationLayer.(payload := payload))
  }

  function WithTcpOptions(p: NetworkPacket, options: seq<TCPOption>): NetworkPacket {
    p.(tcpLayer := p.tcpLayer.(options := options))
  }

  // ---------------------------------------------------------------- total_size

  /** The option sum distributes over concatenation: each option adds its own `length`. */
  lemma {:induction false} OptionLengthSumAppend(a: seq<TCPOption>, b: seq<TCPOption>)
    ensures OptionLengthSum(a + b) == OptionLengthSum(a) + OptionLengthSum(b)
  {
    if a == [] {
      assert a + b == b;
    } else {
      assert (a + b)[1..] == a[1..] + b;
      OptionLengthSumAppend(a[1..], b);
    }
  }

  /** The sum reads only the declared `length` fields, never the `data` bytes. */
  lemma {:induction false} OptionLengthSumIgnoresData(a: seq<TCPOption>, b: seq<TCPOption>)
    requires |a| == |b|
    requires forall i :: 0 <= i < |a| ==> a[i].length == b[i].length
    ensures OptionLengthSum(a) == OptionLengthSum(b)
  {
    if a != [] {
      OptionLengthSumIgnoresData(a[1..], b[1..]);
    }
  }

  /** Replacing only the payload changes `total_size` by exactly the change in payload length. */
  lemma TotalSizePayloadDelta(p: NetworkPacket, payload: seq<u8>)
    ensures TotalSize(WithPayload(p, payload)) - TotalSize(p)
            == |payload| - |p.applicationLayer.payload|
  {
  }

  /**
   * Replacing TCP options by options with the same declared lengths (whatever
   * their data) leaves `total_size` unchanged.
   */
  lemma TotalSizeIgnoresOptionData(p: NetworkPacket, options: seq<TCPOption>)
    requires |options| == |p.tcpLayer.options|
    requires forall i :: 0 <= i < |options| ==> options[i].length == p.tcpLayer.options[i].length
    ensures TotalSize(WithTcpOptions(p, options)) == TotalSize(p)
  {
    OptionLengthSumIgnoresData(options, p.tcpLayer.options);
  }

  /** Appending one TCP option adds its declared length, not the size of its data. */
  lemma TotalSizeAddOption(p: NetworkPacket, option: TCPOption)
    ensures TotalSize(WithTcpOptions(p, p.tcpLayer.options + [option]))
            == TotalSize(p) + option.length
  {
    OptionLengthSumAppend(p.tcpLayer.options, [option]);
    assert OptionLengthSum([option]) == option.length by {
      assert [option][1..] == [];
    }
  }

  // ------------------------------------------------------- get_protocol_string

  /** Each well-known protocol is labelled with its own upper-case name. */
  lemma ProtocolStringCases(p: NetworkPacket)
    ensures p.applicationLayer.protocol == HTTP ==> ProtocolString(p) == "HTTP"
    ensures p.applicationLayer.protocol == HTTPS ==> ProtocolString(p) == "HTTPS"
    ensures p.applicationLayer.protocol == FTP ==> ProtocolString(p) == "FTP"
    ensures p.applicationLayer.protocol == SSH ==> ProtocolString(p) == "SSH"
    ensures p.applicationLayer.protocol == SMTP ==> ProtocolString(p) == "SMTP"
    ensures p.applicationLayer.protocol == DNS ==> ProtocolString(p) == "DNS"
  {
  }

  /** The six known labels are pairwise distinct: on known variants the label determines the protocol. */
  lemma KnownLabelsDistinct(p: NetworkPacket, q: NetworkPacket)
    requires !p.applicationLayer.protocol.Custom? && !q.applicationLayer.protocol.Custom?
    ensures ProtocolString(p) == ProtocolString(q) <==> p.applicationLayer.protocol == q.applicationLayer.protocol
  {
    var x, y := ProtocolString(p), ProtocolString(q);
    if x == y {
      assert |x| == |y| && x[0] == y[0] && x[|x| - 1] == y[|y| - 1];
    }
  }
}
