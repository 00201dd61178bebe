/**
 * The field decoders of src/parser.rs: MAC and IPv4 address strings into
 * fixed-size byte arrays, the hexadecimal TCP flag word into the eight flags,
 * and the table of defaults the per-layer builders use once the individual
 * field strings have been taken out of the decoder's record.
 */
module Parser {
  import opened Wrappers
  import opened RustStr
  import opened Packet

  // ------------------------------------------------------- parse_mac_address

  /** `u8::from_str_radix(part, 16).unwrap_or(0)`. */
  function HexByteOrZero(part: string): (b: u8)
    ensures ValidNumber(part, 16, 0xFF) ==> b == DigitsValue(Unsigned(part), 16)
    ensures !ValidNumber(part, 16, 0xFF) ==> b == 0
  {
    FromStrRadixValue(part, 16, 0xFF);
    FromStrRadix(part, 16, 0xFF).UnwrapOr(0)
  }

  /** `part.parse::<u8>().unwrap_or(0)`. */
  function DecimalByteOrZero(part: string): (b: u8)
    ensures ValidNumber(part, 10, 0xFF) ==> b == DigitsValue(Unsigned(part), 10)
    ensures !ValidNumber(part, 10, 0xFF) ==> b == 0
  {
    FromStrRadixValue(part, 10, 0xFF);
    FromStrRadix(part, 10, 0xFF).UnwrapOr(0)
  }

  /**
   * The address `parse_mac_address` computes: byte i is the hexadecimal
   * value of the i-th `:`-separated part, 0 when that part does not parse
   * or is missing; parts after the sixth are not read.
   */
  function MacAddressOf(macStr: string): MacAddress {
    var parts := Split(macStr, ':');
    seq(6, i requires 0 <= i < 6 => if i < |parts| then HexByteOrZero(parts[i]) else 0)
  }

  /** `parse_mac_address`: fill a zeroed 6-byte array part by part. */
  method ParseMacAddress(macStr: string) returns (mac: MacAddress)
    ensures mac == MacAddressOf(macStr)
  {
    var buffer := new u8[6](_ => 0);
    var parts := Split(macStr, ':');
    for i := 0 to |parts|
      invariant forall j :: 0 <= j < 6 ==> buffer[j] == (if j < i then MacAddressOf(macStr)[j] else 0)
    {
      if i < 6 {
        buffer[i] := HexByteOrZero(parts[i]);
      }
    }
    mac := buffer[..];
  }

  // -------------------------------------------------------- parse_ip_address

  /**
   * The address `parse_ip_address` computes: byte i is the decimal value of
   * the i-th `.`-separated part, 0 when that part does not parse as a u8 or
   * is missing; parts after the fourth are not read.
   */
  function IpAddressOf(ipStr: string): Ipv4Address {
    var parts := Split(ipStr, '.');
    seq(4, i requires 0 <= i < 4 => if i < |parts| then DecimalByteOrZero(parts[i]) else 0)
  }

  /** `parse_ip_address`: fill a zeroed 4-byte array part by part. */
  method ParseIpAddress(ipStr: string) returns (ip: Ipv4Address)
    ensures ip == IpAddressOf(ipStr)
  {
    var buffer := new u8[4](_ => 0);
    var parts := Split(ipStr, '.');
    for i := 0 to |parts|
      invariant forall j :: 0 <= j < 4 ==> buffer[j] == (if j < i then IpAddressOf(ipStr)[j] else 0)
    {
      if i < 4 {
        buffer[i] := DecimalByteOrZero(parts[i]);
      }
    }
    ip := buffer[..];
  }

  // ---------------------------------------------------------- address formats

  /** The renderings of some bytes, one piece per byte. */
  function HexPieces(bytes: seq<u8>): (pieces: seq<string>)
    ensures |pieces| == |bytes|
    ensures forall i :: 0 <= i < |bytes| ==> pieces[i] == HexByteString(bytes[i])
  {
    seq(|bytes|, i requires 0 <= i < |bytes| => HexByteString(bytes[i]))
  }

  function DecimalPieces(bytes: seq<u8>): (pieces: seq<string>)
    ensures |pieces| == |bytes|
    ensures forall i :: 0 <= i < |bytes| ==> pieces[i] == DecimalString(bytes[i])
  {
    seq(|bytes|, i requires 0 <= i < |bytes| => DecimalString(bytes[i]))
  }

  /** Colon-separated two-digit lower-case hexadecimal, as a decoder prints a MAC address. */
  function FormatMac(mac: seq<u8>): string
    requires |mac| >= 1
  {
    Join(HexPieces(mac), ':')
  }

  /** Dotted decimal, as a decoder prints an IPv4 address. */
  function FormatIp(ip: seq<u8>): string
    requires |ip| >= 1
  {
    Join(DecimalPieces(ip), '.')
  }

  /** The pieces of a join followed by more pieces are the join's pieces followed by those. */
  lemma {:induction false} JoinAppend(a: seq<string>, b: seq<string>, sep: char)
    requires |a| >= 1 && |b| >= 1
    ensures Join(a + b, sep) == Join(a, sep) + [sep] + Join(b, sep)
  {
    if |a| > 1 {
      assert (a + b)[1..] == a[1..] + b;
      JoinAppend(a[1..], b, sep);
    } else {
      assert (a + b)[1..] == b;
    }
  }

  /**
   * A MAC string of k <= 6 well-formed hexadecimal parts decodes to those
   * bytes followed by zeros: missing parts stay 0.
   */
  lemma MacAddressOfParts(bytes: seq<u8>)
    requires 1 <= |bytes| <= 6
    ensures MacAddressOf(FormatMac(bytes)) == bytes + seq(6 - |bytes|, _ => 0)
  {
    var pieces := HexPieces(bytes);
    SplitJoin(pieces, ':');
    forall i | 0 <= i < |bytes|
      ensures HexByteOrZero(pieces[i]) == bytes[i]
    {
      HexByteRoundTrip(bytes[i], 0xFF);
    }
  }

  /** Formatting six bytes as `aa:bb:cc:dd:ee:ff` and decoding gives back the bytes. */
  lemma MacAddressRoundTrip(mac: MacAddress)
    ensures MacAddressOf(FormatMac(mac)) == mac
  {
    MacAddressOfParts(mac);
    assert mac + seq(0, _ => 0) == mac;
  }

  /** Anything after a sixth colon-separated part is ignored. */
  lemma MacAddressExtraParts(mac: MacAddress, extra: string)
    ensures MacAddressOf(FormatMac(mac) + [':'] + extra) == mac
  {
    var pieces := HexPieces(mac);
    var more := Split(extra, ':');
    var all := pieces + more;
    JoinSplit(extra, ':');
    JoinAppend(pieces, more, ':');
    assert Join(all, ':') == FormatMac(mac) + [':'] + extra;
    SplitPiecesFree(extra, ':');
    forall i | 0 <= i < |all| ensures ':' !in all[i] {
      if i >= |pieces| {
        assert all[i] == more[i - |pieces|];
      }
    }
    SplitJoin(all, ':');
    forall i | 0 <= i < 6 ensures HexByteOrZero(all[i]) == mac[i] {
      HexByteRoundTrip(mac[i], 0xFF);
    }
  }

  /**
   * An IPv4 string of k <= 4 well-formed decimal parts decodes to those
   * bytes followed by zeros: missing parts stay 0.
   */
  lemma IpAddressOfParts(bytes: seq<u8>)
    requires 1 <= |bytes| <= 4
    ensures IpAddressOf(FormatIp(bytes)) == bytes + seq(4 - |bytes|, _ => 0)
  {
    var pieces := DecimalPieces(bytes);
    SplitJoin(pieces, '.');
    forall i | 0 <= i < |bytes|
      ensures DecimalByteOrZero(pieces[i]) == bytes[i]
    {
      DecimalRoundTrip(bytes[i], 0xFF);
    }
  }

  /** Formatting four bytes as dotted decimal and decoding gives back the bytes. */
  lemma IpAddressRoundTrip(ip: Ipv4Address)
    ensures IpAddressOf(FormatIp(ip)) == ip
  {
    IpAddressOfParts(ip);
    assert ip + seq(0, _ => 0) == ip;
  }

  /** Anything after a fourth dot-separated part is ignored. */
  lemma IpAddressExtraParts(ip: Ipv4Address, extra: string)
    ensures IpAddressOf(FormatIp(ip) + ['.'] + extra) == ip
  {
    var pieces := DecimalPieces(ip);
    var more := Split(extra, '.');
    var all := pieces + more;
    JoinSplit(extra, '.');
    JoinAppend(pieces, more, '.');
    assert Join(all, '.') == FormatIp(ip) + ['.'] + extra;
    SplitPiecesFree(extra, '.');
    forall i | 0 <= i < |all| ensures '.' !in all[i] {
      if i >= |pieces| {
        assert all[i] == more[i - |pieces|];
      }
    }
    SplitJoin(all, '.');
    forall i | 0 <= i < 4 ensures DecimalByteOrZero(all[i]) == ip[i] {
      DecimalRoundTrip(ip[i], 0xFF);
    }
  }

  /** A decimal part above 255 does not fit a u8 and decodes to 0. */
  lemma DecimalOverflowIsZero(n: nat)
    requires n > 0xFF
    ensures DecimalByteOrZero(DecimalString(n)) == 0
  {
    DecimalStringValue(n);
    FromStrRadixValue(DecimalString(n), 10, 0xFF);
  }

  /** A first part above 255 becomes byte 0; the other parts are unaffected. */
  lemma IpAddressOverflowPart(n: nat, tail: seq<u8>)
    requires n > 0xFF && |tail| == 3
    ensures IpAddressOf(Join([DecimalString(n)] + DecimalPieces(tail), '.')) == [0] + tail
  {
    var rest := DecimalPieces(tail);
    var pieces := [DecimalString(n)] + rest;
    assert pieces[0] == DecimalString(n);
    assert pieces[1..] == rest;
    assert '.' !in pieces[0];
    DecimalOverflowIsZero(n);
    TailOctets(tail);
    IpAddressOfPieces(pieces);
  }

  /** Four parts without a dot decode to their four bytes. */
  lemma IpAddressOfPieces(pieces: seq<string>)
    requires |pieces| == 4 && forall i :: 0 <= i < 4 ==> '.' !in pieces[i]
    ensures IpAddressOf(Join(pieces, '.'))
            == [DecimalByteOrZero(pieces[0])] + seq(3, i requires 0 <= i < 3 => DecimalByteOrZero(pieces[1..][i]))
  {
    SplitJoin(pieces, '.');
  }

  /** Each rendered octet reads back as itself. */
  lemma TailOctets(tail: seq<u8>)
    ensures forall i :: 0 <= i < |tail| ==> DecimalByteOrZero(DecimalPieces(tail)[i]) == tail[i]
  {
    forall i | 0 <= i < |tail| ensures DecimalByteOrZero(DecimalPieces(tail)[i]) == tail[i] {
      DecimalRoundTrip(tail[i], 0xFF);
    }
  }

  // ---------------------------------------------------------- parse_tcp_flags

  /** `value & mask != 0` for a mask with one bit set (`mask` a power of two). */
  predicate HasBit(value: nat, mask: nat)
    requires mask > 0
  {
    (value / mask) % 2 == 1
  }

  /** The eight flags of a flag word: bits 0x001 to 0x080 in the order of `TCPFlags`. */
  function FlagsOfValue(value: u16): TCPFlags {
    TCPFlags(
      fin := HasBit(value, 0x001),
      syn := HasBit(value, 0x002),
      rst := HasBit(value, 0x004),
      psh := HasBit(value, 0x008),
      ack := HasBit(value, 0x010),
      urg := HasBit(value, 0x020),
      ece := HasBit(value, 0x040),
      cwr := HasBit(value, 0x080))
  }

  /**
   * `parse_tcp_flags`: strip leading `0x`s, read a hexadecimal u16 (0 on
   * failure), split into flags. A valid word gives the flags of its value;
   * anything else gives all eight flags false.
   */
  function ParseTcpFlags(flagsStr: string): (f: TCPFlags)
    ensures var t := TrimStartMatches(flagsStr, "0x");
            ValidNumber(t, 16, 0xFFFF) ==> f == FlagsOfValue(DigitsValue(Unsigned(t), 16))
    ensures !ValidNumber(TrimStartMatches(flagsStr, "0x"), 16, 0xFFFF) ==> f == NoFlags
  {
    var t := TrimStartMatches(flagsStr, "0x");
    FromStrRadixValue(t, 16, 0xFFFF);
    FlagsOfValue(FromStrRadix(t, 16, 0xFFFF).UnwrapOr(0))
  }

  /** 1 for a set flag, 0 for a clear one. */
  function Bit(b: bool): (r: nat)
    ensures r < 2
  { if b then 1 else 0 }

  const NoFlags := TCPFlags(false, false, false, false, false, false, false, false)

  /** The flag word of a set of flags: the partner of `FlagsOfValue`. */
  function FlagsValue(f: TCPFlags): (v: u8) {
    Bit(f.fin) + 2 * Bit(f.syn) + 4 * Bit(f.rst) + 8 * Bit(f.psh)
    + 16 * Bit(f.ack) + 32 * Bit(f.urg) + 64 * Bit(f.ece) + 128 * Bit(f.cwr)
  }

  /** Integer division is determined by its bracketing multiples. */
  lemma DivBy(x: nat, m: nat, q: nat)
    requires m > 0 && m * q <= x < m * q + m
    ensures x / m == q
  {
    var d, r := x / m, x % m;
    assert x == m * d + r && r < m;
    assert m * (q + 1) == m * q + m && m * (d + 1) == m * d + m;
    if d > q {
      MulMonotoneFactor(m, q + 1, d);
    } else if d < q {
      MulMonotoneFactor(m, d + 1, q);
    }
  }

  lemma MulMonotoneFactor(m: nat, a: nat, b: nat)
    requires a <= b
    ensures m * a <= m * b
  {
    assert m * b == m * a + m * (b - a);
  }

  /** The bit of mask `m` in `low + m * bit + 2 * m * high`, with `low` below `m`, is `bit`. */
  lemma BitAt(x: nat, low: nat, bit: nat, high: nat, m: nat)
    requires m > 0 && low < m && bit < 2
    requires x == low + m * bit + 2 * m * high
    ensures HasBit(x, m) <==> bit == 1
  {
    var q := bit + 2 * high;
    assert m * q == m * bit + 2 * m * high;
    DivBy(x, m, q);
  }

  /** Decoding the flag word of any flag set gives back the flags. */
  lemma FlagsRoundTrip(f: TCPFlags)
    ensures FlagsOfValue(FlagsValue(f)) == f
  {
    WordOfBits(Bit(f.fin), Bit(f.syn), Bit(f.rst), Bit(f.psh), Bit(f.ack), Bit(f.urg), Bit(f.ece), Bit(f.cwr));
  }

  /** Each flag of a word assembled from eight bits is its bit. */
  lemma WordOfBits(b0: nat, b1: nat, b2: nat, b3: nat, b4: nat, b5: nat, b6: nat, b7: nat)
    requires b0 < 2 && b1 < 2 && b2 < 2 && b3 < 2 && b4 < 2 && b5 < 2 && b6 < 2 && b7 < 2
    ensures var v := b0 + 2 * b1 + 4 * b2 + 8 * b3 + 16 * b4 + 32 * b5 + 64 * b6 + 128 * b7;
            v < 0x100 &&
            FlagsOfValue(v) == TCPFlags(b0 == 1, b1 == 1, b2 == 1, b3 == 1, b4 == 1, b5 == 1, b6 == 1, b7 == 1)
  {
    var v := b0 + 2 * b1 + 4 * b2 + 8 * b3 + 16 * b4 + 32 * b5 + 64 * b6 + 128 * b7;
    BitAt(v, 0, b0, b1 + 2 * b2 + 4 * b3 + 8 * b4 + 16 * b5 + 32 * b6 + 64 * b7, 0x001);
    BitAt(v, b0, b1, b2 + 2 * b3 + 4 * b4 + 8 * b5 + 16 * b6 + 32 * b7, 0x002);
    BitAt(v, b0 + 2 * b1, b2, b3 + 2 * b4 + 4 * b5 + 8 * b6 + 16 * b7, 0x004);
    BitAt(v, b0 + 2 * b1 + 4 * b2, b3, b4 + 2 * b5 + 4 * b6 + 8 * b7, 0x008);
    BitAt(v, b0 + 2 * b1 + 4 * b2 + 8 * b3, b4, b5 + 2 * b6 + 4 * b7, 0x010);
    BitAt(v, b0 + 2 * b1 + 4 * b2 + 8 * b3 + 16 * b4, b5, b6 + 2 * b7, 0x020);
    BitAt(v, b0 + 2 * b1 + 4 * b2 + 8 * b3 + 16 * b4 + 32 * b5, b6, b7, 0x040);
    BitAt(v, b0 + 2 * b1 + 4 * b2 + 8 * b3 + 16 * b4 + 32 * b5 + 64 * b6, b7, 0, 0x080);
  }

  /** Adding a multiple of twice the mask leaves that bit as it was. */
  lemma BitIgnoresHigherMultiple(y: nat, x: nat, m: nat, q: nat)
    requires m > 0 && y == x + 2 * m * q
    ensures HasBit(y, m) <==> HasBit(x, m)
  {
    var d := x / m;
    assert m * (d + 2 * q) == m * d + 2 * m * q;
    DivBy(y, m, d + 2 * q);
  }

  /** Bits above 0x080 do not affect any flag. */
  lemma FlagsIgnoreHighBits(value: u16)
    ensures FlagsOfValue(value) == FlagsOfValue(value % 0x100)
  {
    var r, q := value % 0x100, value / 0x100;
    assert value == r + 0x100 * q;
    assert HasBit(value, 0x001) == HasBit(r, 0x001) by {
      BitIgnoresHigherMultiple(value, r, 0x001, 128 * q);
    }
    assert HasBit(value, 0x002) == HasBit(r, 0x002) by {
      BitIgnoresHigherMultiple(value, r, 0x002, 64 * q);
    }
    assert HasBit(value, 0x004) == HasBit(r, 0x004) by {
      BitIgnoresHigherMultiple(value, r, 0x004, 32 * q);
    }
    assert HasBit(value, 0x008) == HasBit(r, 0x008) by {
      BitIgnoresHigherMultiple(value, r, 0x008, 16 * q);
    }
    assert HasBit(value, 0x010) == HasBit(r, 0x010) by {
      BitIgnoresHigherMultiple(value, r, 0x010, 8 * q);
    }
    assert HasBit(value, 0x020) == HasBit(r, 0x020) by {
      BitIgnoresHigherMultiple(value, r, 0x020, 4 * q);
    }
    assert HasBit(value, 0x040) == HasBit(r, 0x040) by {
      BitIgnoresHigherMultiple(value, r, 0x040, 2 * q);
    }
    assert HasBit(value, 0x080) == HasBit(r, 0x080) by {
      BitIgnoresHigherMultiple(value, r, 0x080, q);
    }
  }

  /** Every leading `0x` is stripped, so `0x12` and `12` decode alike. */
  lemma ParseTcpFlagsStripsPrefix(s: string)
    ensures ParseTcpFlags("0x" + s) == ParseTcpFlags(s)
  {
    TrimStartMatchesPrefix(s, "0x");
  }

  /** The default `"0x000"` used when no flag field is present yields all eight flags false. */
  lemma DefaultFlagsString()
    ensures ParseTcpFlags("0x000") == NoFlags
  {
    DefaultFlagsTrim();
    ZeroDigits();
    assert FlagsOfValue(0) == NoFlags;
  }

  lemma DefaultFlagsTrim()
    ensures TrimStartMatches("0x000", "0x") == "000"
  {
    var s, z := "0x000", "000";
    assert |s| == 5 && s[0] == '0' && s[1] == 'x';
    assert s[..2] == "0x";
    assert s[2..] == z;
    assert z[1] != 'x';
    assert !("0x" <= z);
  }

  lemma ZeroDigits()
    ensures FromStrRadix("000", 16, 0xFFFF) == Some(0)
  {
    var z := "0";
    assert DigitValue('0', 16) == Some(0) && z[..0] == [];
    assert IsDigits(z, 16) && DigitsValue(z, 16) == 0;
    LeadingZero(z, 16);
    assert "0" + z == "00";
    LeadingZero("00", 16);
    assert "0" + "00" == "000" && Unsigned("000") == "000";
    FromStrRadixValue("000", 16, 0xFFFF);
  }

  /** A flag set printed as `0x` and two hexadecimal digits decodes to itself. */
  lemma ParseTcpFlagsRoundTrip(f: TCPFlags)
    ensures ParseTcpFlags("0x" + HexByteString(FlagsValue(f))) == f
  {
    var s := HexByteString(FlagsValue(f));
    ParseTcpFlagsStripsPrefix(s);
    assert "0x"[1] != s[1];
    HexByteRoundTrip(FlagsValue(f), 0xFFFF);
    FlagsRoundTrip(f);
  }

  /** A packet whose flags come from a flag word is handshake-related iff bit 0x001 or 0x002 is set. */
  lemma HandshakeOfFlagWord(p: NetworkPacket, value: u16)
    requires p.tcpLayer.flags == FlagsOfValue(value)
    ensures IsHandshake(p) <==> value % 4 != 0
  {
  }

  // ------------------------------------------------------- layer default table

  /** `field.and_then(|t| from_str_radix(t, radix).ok()).unwrap_or(default)`. */
  function NumberOr(field: Option<string>, radix: nat, max: nat, default: nat): (r: nat)
    requires 2 <= radix <= 36 && default <= max
    ensures r <= max
    ensures field.None? ==> r == default
    ensures field.Some? && ValidNumber(field.value, radix, max) ==> r == DigitsValue(Unsigned(field.value), radix)
    ensures field.Some? && !ValidNumber(field.value, radix, max) ==> r == default
  {
    match field
    case None => default
    case Some(text) =>
      FromStrRadixValue(text, radix, max);
      FromStrRadix(text, radix, max).UnwrapOr(default)
  }

  /**
   * `parse_ethernet_layer` once the fields are extracted: both MAC addresses
   * are required (None stands for the parse error), the ethertype is read as
   * hexadecimal and defaults to 0x0800, the frame check sequence is 0.
   */
  function EthernetLayerOf(sourceMac: Option<string>, destinationMac: Option<string>, ethertype: Option<string>)
    : (r: Option<EthernetFrame>)
    ensures r.Some? <==> sourceMac.Some? && destinationMac.Some?
    ensures r.Some? ==> r.value.sourceMac == MacAddressOf(sourceMac.value)
                        && r.value.destinationMac == MacAddressOf(destinationMac.value)
                        && r.value.frameCheckSequence == 0
    ensures r.Some? && ethertype.None? ==> r.value.ethertype == 0x0800
  {
    if sourceMac.None? || destinationMac.None? then None
    else Some(EthernetFrame(
      MacAddressOf(sourceMac.value),
      MacAddressOf(destinationMac.value),
      EthertypeOf(ethertype),
      0))
  }

  /** The ethertype as `parse_ethernet_layer` reads it: `from_str_radix(t, 16)`, 0x0800 if absent or invalid. */
  function EthertypeOf(field: Option<string>): (r: u16)
    ensures field.None? ==> r == 0x0800
  {
    NumberOr(field, 16, 0xFFFF, 0x0800)
  }

  /**
   * Every ethertype written with a `0x` prefix, the form a decoder prints
   * it in, is rejected by the hexadecimal parse and read as 0x0800.
   */
  lemma EthertypeHexPrefixFallsBack(s: string)
    ensures EthertypeOf(Some("0x" + s)) == 0x0800
  {
    var t := "0x" + s;
    assert t[0] == '0' && t[1] == 'x';
    assert Unsigned(t) == t;
    assert !IsDigits(t, 16) by {
      assert DigitValue(t[1], 16).None?;
    }
    FromStrRadixValue(t, 16, 0xFFFF);
  }

  /** An IPv6 frame (`0x86dd`) is recorded with the IPv4 ethertype; the corrected reading gets 0x86DD. */
  lemma Ipv6EthertypeMisread()
    ensures EthertypeOf(Some("0x86dd")) == 0x0800
    ensures CorrectedEthertypeOf(Some("0x86dd")) == 0x86DD
  {
    assert 0x86DD / 16 == 0x86D && 0x86D / 16 == 0x86 && 0x86 / 16 == 8;
    assert DigitChar(8) == '8' && DigitChar(6) == '6' && DigitChar(13) == 'd';
    assert HexWordString(0x86DD) == "86dd";
    assert "0x86dd" == "0x" + "86dd";
    EthertypeHexPrefixFallsBack("86dd");
    CorrectedEthertypeRoundTrip(0x86DD);
  }

  /** The ethertype read the way the flag word is: leading `0x`s stripped before the hexadecimal parse. */
  function CorrectedEthertypeOf(field: Option<string>): (r: u16)
    ensures field.None? ==> r == 0x0800
  {
    match field
    case None => 0x0800
    case Some(text) => FromStrRadix(TrimStartMatches(text, "0x"), 16, 0xFFFF).UnwrapOr(0x0800)
  }

  /** The corrected reading gets back every ethertype, with or without its `0x` prefix. */
  lemma CorrectedEthertypeRoundTrip(w: u16)
    ensures CorrectedEthertypeOf(Some("0x" + HexWordString(w))) == w
    ensures CorrectedEthertypeOf(Some(HexWordString(w))) == w
  {
    var s := HexWordString(w);
    TrimStartMatchesPrefix(s, "0x");
    assert !("0x" <= s) by {
      assert s[1] != 'x';
    }
    HexWordRoundTrip(w, 0xFFFF);
  }

  /** On a field without a `0x` prefix the corrected reading is the original one. */
  lemma CorrectedEthertypeAgrees(s: string)
    requires !("0x" <= s)
    ensures CorrectedEthertypeOf(Some(s)) == EthertypeOf(Some(s))
  {
  }

  /**
   * `parse_ip_layer` once the fields are extracted: both addresses are
   * required; everything else is the fixed table (version 4, header length
   * 5, TTL 64, protocol 6, no options, the rest zero).
   */
  function IpLayerOf(sourceIp: Option<string>, destinationIp: Option<string>): (r: Option<IPv4Packet>)
    ensures r.Some? <==> sourceIp.Some? && destinationIp.Some?
    ensures r.Some? ==> r.value.sourceIp == IpAddressOf(sourceIp.value)
                        && r.value.destinationIp == IpAddressOf(destinationIp.value)
                        && r.value.version == 4 && r.value.ttl == 64 && r.value.protocol == 6
                        && r.value.options == []
  {
    if sourceIp.None? || destinationIp.None? then None
    else Some(IPv4Packet(
      version := 4, ihl := 5, dscp := 0, ecn := 0,
      totalLength := 0, identification := 0,
      flags := IPv4Flags(false, false, false),
      fragmentOffset := 0, ttl := 64, protocol := 6, headerChecksum := 0,
      sourceIp := IpAddressOf(sourceIp.value),
      destinationIp := IpAddressOf(destinationIp.value),
      options := []))
  }

  /**
   * `parse_tcp_layer` once the fields are extracted: flags from the flag
   * word (default `"0x000"`), ports, sequence and acknowledgment numbers
   * and window size in decimal (default 0), header length 5, no options.
   */
  function TcpLayerOf(
    flags: Option<string>, sourcePort: Option<string>, destinationPort: Option<string>,
    sequenceNumber: Option<string>, acknowledgmentNumber: Option<string>, windowSize: Option<string>)
    : (r: TCPSegment)
    ensures r.flags == ParseTcpFlags(flags.UnwrapOr("0x000"))
    ensures r.options == [] && r.dataOffset == 5
    ensures r.sourcePort == NumberOr(sourcePort, 10, 0xFFFF, 0)
    ensures r.destinationPort == NumberOr(destinationPort, 10, 0xFFFF, 0)
    ensures r.sequenceNumber == NumberOr(sequenceNumber, 10, 0xFFFF_FFFF, 0)
    ensures r.acknowledgmentNumber == NumberOr(acknowledgmentNumber, 10, 0xFFFF_FFFF, 0)
    ensures r.windowSize == NumberOr(windowSize, 10, 0xFFFF, 0)
    ensures sourcePort.None? ==> r.sourcePort == 0
    ensures destinationPort.None? ==> r.destinationPort == 0
    ensures sequenceNumber.None? ==> r.sequenceNumber == 0
    ensures acknowledgmentNumber.None? ==> r.acknowledgmentNumber == 0
    ensures windowSize.None? ==> r.windowSize == 0
  {
    TCPSegment(
      sourcePort := NumberOr(sourcePort, 10, 0xFFFF, 0),
      destinationPort := NumberOr(destinationPort, 10, 0xFFFF, 0),
      sequenceNumber := NumberOr(sequenceNumber, 10, 0xFFFF_FFFF, 0),
      acknowledgmentNumber := NumberOr(acknowledgmentNumber, 10, 0xFFFF_FFFF, 0),
      dataOffset := 5,
      flags := ParseTcpFlags(flags.UnwrapOr("0x000")),
      windowSize := NumberOr(windowSize, 10, 0xFFFF, 0),
      checksum := 0,
      urgentPointer := 0,
      options := [])
  }

  /** A TCP layer built with no flag field has all flags false. */
  lemma TcpLayerDefaultFlags(sp: Option<string>, dp: Option<string>, sn: Option<string>, an: Option<string>, w: Option<string>)
    ensures TcpLayerOf(None, sp, dp, sn, an, w).flags == NoFlags
  {
    DefaultFlagsString();
  }

  /**
   * A packet whose IPv4 and TCP layers come from the layer builders carries
   * no options, so its size is the 54 header bytes plus its payload.
   */
  lemma BuiltPacketSize(
    p: NetworkPacket, sourceIp: Option<string>, destinationIp: Option<string>,
    flags: Option<string>, sourcePort: Option<string>, destinationPort: Option<string>,
    sequenceNumber: Option<string>, acknowledgmentNumber: Option<string>, windowSize: Option<string>)
    requires IpLayerOf(sourceIp, destinationIp).Some? && p.ipLayer == IpLayerOf(sourceIp, destinationIp).value
    requires p.tcpLayer == TcpLayerOf(flags, sourcePort, destinationPort, sequenceNumber, acknowledgmentNumber, windowSize)
    ensures TotalSize(p) == MinimumSize + |p.applicationLayer.payload|
  {
  }
}
