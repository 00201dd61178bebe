# net-traffic: TCP session reconstruction, modelled in Dafny

net-traffic reads packets that an external decoder has already turned into
per-field records. It builds a `NetworkPacket` value for each record:
Ethernet, IPv4 and TCP layers plus an application layer. It then rebuilds
TCP sessions from the packet sequence in a single pass.

This project models three parts of that program:

- **Data model** (`packet.dfy`, module `Packet`). These are the packet and
  layer records and the three packet queries: `total_size`, `is_handshake`
  and `get_protocol_string`.
- **Session reconstruction** (`sessions.dfy`, module `Sessions`).
  `find_tcp_sessions` is an imperative method with the same loops as the
  source:
  - a loop over the packets;
  - the SYN branch and the FIN branch;
  - the push of the packet onto every session that already exists.

  The method is proved equal to a prefix fold, `Reconstruct`. That fold is
  then proved equal to reference definitions stated per flow key:
  - the first opening SYN;
  - the last matching FIN;
  - the exact packet list, in input order.
- **Field decoders** (`parser.dfy`, module `Parser`).
  - `parse_mac_address` and `parse_ip_address` are array-filling methods,
    each proved against a function of the input string.
  - `parse_tcp_flags` is a function of the flag string.
  - The defaults table of the per-layer builders is modelled too.

  The Rust standard-library behaviour these decoders depend on is in
  `rust_str.dfy` (module `RustStr`):
  - `str::split`, which always yields at least one piece;
  - `trim_start_matches`, which strips repeatedly;
  - `from_str_radix` and `parse` for unsigned types: the empty string fails,
    a lone sign fails, one leading `+` is accepted, and overflow is checked.

`wrappers.dfy` holds the `Option` type.

## How the model follows the code

- **End time.** The session end time is overwritten by every FIN whose
  reverse key matches an existing entry (src/sessions.rs:47-50). So a
  session ends at the *last* such FIN. Nothing in the code freezes the end
  time once it is set. `Sessions.EndIsLastFin` states what the code does.
- **Duplicate pushes.** A SYN packet is pushed twice onto its own session,
  once in the SYN branch and once in the push onto every session. The same
  holds for a matching FIN. So SYN, reply, FIN gives the list
  `[SYN, SYN, reply, FIN, FIN]`, not `[SYN, reply, FIN]`. The model follows
  the code; see `Sessions.SynReplyFin` and `Sessions.OpeningSynTwice`.
- **Every packet goes to every session.** The push loop (src/sessions.rs:54-56)
  appends each packet to every session that exists, whatever the packet's
  own flow. `Sessions.SessionHoldsAllLaterTraffic` states this.
- **Output.** The returned `Vec<TCPSession>` comes from a `HashMap`, so its
  order is unspecified. It is modelled as a map from flow key to session;
  the map's keys are exactly the sessions' keys.
- **Single-bit tests.** The test `value & mask != 0` on a one-bit mask is
  modelled as `(value / mask) % 2 == 1`. That is the same bit test, written
  without bit-vectors.

## Model

| member | source | states |
|---|---|---|
| Packet.OptionLengthSum | src/packet.rs:110 | the sum of TCP option lengths is 0 for no options and at most 255 per option |
| Packet.TotalSize | src/packet.rs:107-112 | the size is defined as 14 + 20 + IPv4 option bytes + 20 + declared TCP option lengths + payload; its contract: at least the fixed 54 header bytes plus the payload length |
| Packet.OptionLengthSumAppend | src/packet.rs:110 | the option-length sum of a concatenation is the sum of the parts |
| Packet.OptionLengthSumIgnoresData | src/packet.rs:110 | only each option's declared length counts, never its data bytes |
| Packet.TotalSizePayloadDelta | src/packet.rs:111 | replacing the payload changes the size by exactly the change in payload length |
| Packet.TotalSizeIgnoresOptionData | src/packet.rs:110 | TCP options with the same declared lengths give the same size, whatever their data |
| Packet.TotalSizeAddOption | src/packet.rs:110 | adding a TCP option grows the size by that option's declared length |
| Packet.IsHandshake | src/packet.rs:114-117 | defined as SYN or FIN set; on a decoded flag word this is bit 0x001 or 0x002, proved in Parser.HandshakeOfFlagWord |
| Packet.ProtocolString | src/packet.rs:119-130 | a custom protocol gives its own name verbatim; every well-known protocol gives one of the six known labels |
| Packet.ProtocolStringCases | src/packet.rs:119-130 | each of the six well-known protocols gives its own upper-case name |
| Packet.KnownLabelsDistinct | src/packet.rs:121-127 | two different well-known protocols give different strings |
| RustStr.Split | src/parser.rs:216 | splitting always yields at least one piece |
| RustStr.SplitPiecesFree | src/parser.rs:216 | no piece contains the separator |
| RustStr.JoinSplit | src/parser.rs:216 | joining the pieces with the separator gives back the string |
| RustStr.SplitNoSeparator | src/parser.rs:216 | a string without the separator is a single piece |
| RustStr.SplitAfterPiece | src/parser.rs:216 | splitting a piece, a separator and the rest gives that piece followed by the rest's pieces |
| RustStr.SplitJoin | src/parser.rs:216 | splitting a join of separator-free pieces gives back the pieces |
| RustStr.TrimStartMatches | src/parser.rs:239 | the result is a suffix of the input that no longer starts with the pattern, and a string that does not start with the pattern comes back unchanged |
| RustStr.TrimStartMatchesPrefix | src/parser.rs:239 | a leading occurrence of the pattern makes no difference, and trimming is idempotent |
| RustStr.CheckedDigits | src/parser.rs:219 | the checked digit loop never yields a value above the type's maximum |
| RustStr.FromStrRadix | src/parser.rs:219 | any parsed value is at most the type's maximum |
| RustStr.CheckedDigitsValue | src/parser.rs:219 | the digit loop succeeds iff every character is a digit and the value fits, and then yields that value |
| RustStr.FromStrRadixValue | src/parser.rs:239 | parsing succeeds iff the text after one optional `+` is a non-empty digit string whose value fits, and then yields its value |
| RustStr.LeadingZero | src/parser.rs:239 | a leading zero digit does not change the value |
| RustStr.DecimalStringValue | src/parser.rs:231 | the decimal digits of n read back as n |
| RustStr.DecimalRoundTrip | src/parser.rs:231 | `parse` of the decimal rendering of a value that fits gives back that value |
| RustStr.HexByteRoundTrip | src/parser.rs:219 | hexadecimal parsing of a byte's two-digit rendering gives back the byte |
| RustStr.HexWordRoundTrip | src/parser.rs:130 | hexadecimal parsing of a 16-bit value's four-digit rendering gives back the value |
| Parser.HexByteOrZero | src/parser.rs:219 | a part that `from_str_radix(_, 16)` accepts as a u8 gives its hexadecimal value; any other part gives 0 |
| Parser.DecimalByteOrZero | src/parser.rs:231 | a part that `parse::<u8>` accepts gives its decimal value; any other part gives 0 |
| Parser.ParseMacAddress | src/parser.rs:214-223 | the filled 6-byte array is MacAddressOf: byte i is the hex value of part i; a missing or invalid part gives 0 and parts after the sixth are ignored |
| Parser.ParseIpAddress | src/parser.rs:226-235 | the filled 4-byte array is IpAddressOf: byte i is the decimal value of part i; a missing or invalid part gives 0 and parts after the fourth are ignored |
| Parser.MacAddressOfParts | src/parser.rs:215-222 | one to six well-formed parts decode to those bytes followed by zeros |
| Parser.MacAddressRoundTrip | src/parser.rs:214-223 | the colon-separated hex rendering of any MAC address decodes to that address |
| Parser.MacAddressExtraParts | src/parser.rs:218 | parts after the sixth do not change the result |
| Parser.IpAddressOfParts | src/parser.rs:227-234 | one to four well-formed parts decode to those bytes followed by zeros |
| Parser.IpAddressRoundTrip | src/parser.rs:226-235 | the dotted-decimal rendering of any IPv4 address decodes to that address |
| Parser.IpAddressExtraParts | src/parser.rs:230 | parts after the fourth do not change the result |
| Parser.DecimalOverflowIsZero | src/parser.rs:231 | a decimal part above 255 decodes to 0 |
| Parser.IpAddressOfPieces | src/parser.rs:228-233 | any four parts without a dot, joined by dots, decode to the decimal bytes of those four parts |
| Parser.IpAddressOverflowPart | src/parser.rs:231 | an out-of-range first octet becomes 0 and the other octets are unaffected |
| Parser.FlagsOfValue | src/parser.rs:241-250 | flag i is set iff the word's bit for mask 2^i is set (fin 0x001 … cwr 0x080); WordOfBits and FlagsRoundTrip state this for words below 0x100, and FlagsIgnoreHighBits shows the bits above 0x080 change no flag |
| Parser.ParseTcpFlags | src/parser.rs:238-251 | after stripping leading `0x`s, a valid hexadecimal u16 gives the flags of its value, and anything else gives all eight flags false |
| Parser.FlagsRoundTrip | src/parser.rs:241-250 | decoding the flag word assembled from any eight flags gives back those flags |
| Parser.WordOfBits | src/parser.rs:242-249 | each of the masks 0x001 to 0x080 picks out exactly its own bit of the word |
| Parser.FlagsIgnoreHighBits | src/parser.rs:241-250 | bits above 0x080 do not change any flag |
| Parser.ParseTcpFlagsStripsPrefix | src/parser.rs:239 | `0x` followed by s decodes like s |
| Parser.DefaultFlagsString | src/parser.rs:172 | the default flag string `0x000` gives all flags false |
| Parser.ParseTcpFlagsRoundTrip | src/parser.rs:238-251 | `0x` followed by the two-digit hex word of any flag set decodes to that flag set |
| Parser.HandshakeOfFlagWord | src/parser.rs:242-243 | a packet whose flags come from a word is a handshake iff bit 0x001 or 0x002 of the word is set |
| Parser.NumberOr | src/parser.rs:175-206 | a field parsed with a default is at most the type's maximum; a present field that `from_str_radix` accepts gives its value in that radix; an absent field or one it rejects gives the default |
| Parser.EthernetLayerOf | src/parser.rs:114-134 | the frame exists iff both MAC strings are present; it holds their decoded addresses and FCS 0, and ethertype 0x0800 when that field is absent |
| Parser.EthertypeOf | src/parser.rs:126-131 | an absent ethertype is 0x0800 |
| Parser.EthertypeHexPrefixFallsBack | src/parser.rs:130-131 | every ethertype written with `0x` is read as 0x0800 |
| Parser.Ipv6EthertypeMisread | src/parser.rs:130-131 | `0x86dd` is read as 0x0800; the corrected reading gives 0x86DD |
| Parser.CorrectedEthertypeOf | src/parser.rs:126-131 | an absent ethertype is 0x0800 |
| Parser.CorrectedEthertypeRoundTrip | src/parser.rs:130 | the corrected reading gets back every 16-bit ethertype, with or without `0x` |
| Parser.CorrectedEthertypeAgrees | src/parser.rs:130 | on fields without a `0x` prefix the corrected reading is the original one |
| Parser.IpLayerOf | src/parser.rs:136-165 | the IPv4 layer exists iff both address strings are present; it holds their decoded addresses, version 4, TTL 64, protocol 6 and no options |
| Parser.TcpLayerOf | src/parser.rs:167-211 | the flags are decoded from the flag field or its default `0x000`; header length 5; no options; the ports, sequence number, acknowledgment number and window size are each parsed as decimal by `NumberOr` with default 0, up to 0xFFFF or 0xFFFFFFFF, so an absent or unparseable field is 0 |
| Parser.TcpLayerDefaultFlags | src/parser.rs:168-172 | a TCP layer built without a flag field has every flag false |
| Parser.BuiltPacketSize | src/parser.rs:136-211 | a packet whose IPv4 layer comes from IpLayerOf and whose TCP layer comes from TcpLayerOf has size 54 plus its payload length |
| Sessions.AfterSyn | src/sessions.rs:23-36 | the SYN branch; its per-key effect (a new key only for a SYN, start never reset) is proved in Sessions.StepAt |
| Sessions.AfterFin | src/sessions.rs:38-51 | the FIN branch; its per-key effect (no new key, end time overwritten) is proved in Sessions.StepAt |
| Sessions.PushAll | src/sessions.rs:54-56 | the push onto every entry; that every entry gains the packet last is proved in Sessions.StepOnlyAppends |
| Sessions.Step | src/sessions.rs:22-56 | one iteration: SYN branch, FIN branch, push onto every entry, in source order; characterised per key by Sessions.StepAt |
| Sessions.Reconstruct | src/sessions.rs:19-57 | after the pass over any packets, the table's keys are exactly the forward keys of the SYN packets |
| Sessions.SessionsOf | src/sessions.rs:19-72 | the sessions returned for any packets have exactly the forward keys of the SYN packets as keys |
| Sessions.FindTcpSessions | src/sessions.rs:19-72 | the returned sessions equal SessionsOf of the input, and their keys are exactly the forward keys of the SYN packets |
| Sessions.ProcessPacket | src/sessions.rs:22-56 | processing one packet (SYN branch, FIN branch, push onto every entry) gives Step of the table |
| Sessions.Collect | src/sessions.rs:60-71 | the conversion keeps exactly the table's keys |
| Sessions.FirstOpen | src/sessions.rs:23-36 | the first index whose packet is a SYN with the given forward key, or none if no such SYN exists |
| Sessions.LastClose | src/sessions.rs:38-51 | the last index at or after c whose packet is a FIN with the given reverse key, or none if there is none |
| Sessions.ContributionIndices | src/sessions.rs:35 | one input index for each push of a packet |
| Sessions.ReverseKeyIsSwapped | src/sessions.rs:40-45 | the FIN lookup key is the SYN key with ends exchanged, and exchanging twice gives the key back |
| Sessions.MirroredFinMatchesSyn | src/sessions.rs:25-45 | a FIN sent back along a SYN's flow is looked up under that SYN's key |
| Sessions.StepAt | src/sessions.rs:22-56 | one iteration creates an entry exactly for a new SYN key; an existing entry keeps its start time, takes the FIN's time as its end, and gains this packet's pushes |
| Sessions.StepOnlyAppends | src/sessions.rs:22-56 | no entry is removed; each keeps its start time, its list only grows, and this packet becomes its last element |
| Sessions.UnmatchedFin | src/sessions.rs:47-50 | a FIN without a matching entry changes nothing except the push onto every entry |
| Sessions.ReconstructMatchesReference | src/sessions.rs:19-57 | after the pass, a key has an entry iff some SYN opens it, and that entry matches the reference definitions from its first SYN |
| Sessions.EmptyInput | src/sessions.rs:19-72 | no packets give no sessions |
| Sessions.SessionFields | src/sessions.rs:60-71 | a session has its key's four fields, the first SYN's time, the end of the last matching FIN and the reference packet list |
| Sessions.StartIsFirstSyn | src/sessions.rs:31-33 | the start time is that of the first SYN on the key; later SYNs do not reset it |
| Sessions.EndIsLastFin | src/sessions.rs:47-48 | the end time is absent iff no matching FIN comes at or after the first SYN; otherwise it is the time of the last one |
| Sessions.MirroredFinCloses | src/sessions.rs:38-51 | a SYN followed by a FIN sent back along its flow produces a session with an end time |
| Sessions.SynReplyFin | src/sessions.rs:19-72 | SYN, reply and FIN give one session from the SYN's time to the FIN's time holding [SYN, SYN, reply, FIN, FIN] |
| Sessions.TrailLength | src/sessions.rs:35-55 | the reference list holds one element per packet, plus one per SYN and one per matching FIN |
| Sessions.PacketCount | src/sessions.rs:35-55 | a session opened at index c of n packets holds n - c packets plus one per SYN and one per matching FIN from c on |
| Sessions.TrailStartsWith | src/sessions.rs:35 | the reference list starts with the opening packet's own pushes |
| Sessions.OpeningSynTwice | src/sessions.rs:35-55 | every session list starts with its opening SYN twice |
| Sessions.TrailIndicesSorted | src/sessions.rs:22-56 | the input indices of the list elements lie from the opening SYN on and never decrease |
| Sessions.TrailIndicesPoint | src/sessions.rs:22-56 | each list element is the input packet at its recorded index |
| Sessions.PacketsInInputOrder | src/sessions.rs:22-56 | a session's packets are input packets from its first SYN on, in input order |
| Sessions.TrailContains | src/sessions.rs:54-56 | every packet from the opening index on is in the reference list |
| Sessions.SessionHoldsAllLaterTraffic | src/sessions.rs:54-56 | every packet from a SYN on is in that SYN's session, whatever its own flow |

## Left out

- Capture decoding is not modelled: running the external decoder (`parse_pcap`, `is_tshark_installed`), the JSON records, `parse_packet_json`, timestamp parsing and the command-line driver in src/main.rs. These are I/O and library calls. Field strings enter the model as `Option<string>` arguments, and timestamps as opaque integers.
- `parse_application_layer` is called at src/parser.rs:103 but never defined in the repository, so it is not part of this model.
- Parser.EthernetLayerOf, Parser.IpLayerOf: the error value is `None`, dropping the `PcapError::ParseError` message text.
- Packet.TotalSize: result is an unbounded `nat`; `usize` overflow of the option-length sum is not modelled.
- Sessions.FindTcpSessions: the result is a map keyed by flow key, not a `Vec` in `HashMap` iteration order, and packets are values, not clones. As written, the Rust uses `packet.clone()` on a type that does not derive `Clone`, and main.rs never declares `mod sessions`. The model treats both as if they compiled.
- Parser.FlagsOfValue: `value & mask != 0` is written as `(value / mask) % 2 == 1`, which equals it only because every mask has a single bit set.
- Serialization derives (`Serialize`, `Debug`) and the `Display` formatting of errors are not modelled.

## Findings

| source | as written | input that shows it | evidently intended | confidence | as-written member | corrected member |
|---|---|---|---|---|---|---|
| src/parser.rs:130 | the ethertype string is parsed with `u16::from_str_radix(t, 16)`, which rejects the `0x` prefix that the decoder writes | `"0x86dd"` (an IPv6 frame) is read as 0x0800, as is every ethertype written with `0x` | strip the leading `0x`s as `parse_tcp_flags` does at src/parser.rs:239, then read the hexadecimal value | medium, not executed | Parser.EthertypeHexPrefixFallsBack | Parser.CorrectedEthertypeRoundTrip |
