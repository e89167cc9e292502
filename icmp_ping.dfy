/**
 The packet path of `ICMPPing`: the Echo Request that `sendOnePing` builds
 (an RFC 792 Echo message, type 8, code 0) and the header that
 `receiveOnePing` unpacks from a received IPv4 datagram. Both use the
 native-order struct format 'bbHHh': type and code as signed chars at
 offsets 0 and 1, checksum and identifier as unsigned shorts at 2 and 4,
 sequence as a signed short at 6, eight bytes without padding.
 */
module IcmpPing {
  import opened NativeStruct
  import opened InternetChecksum

  const EchoRequestType := 8
  const EchoCode := 0
  const EchoSequence := 1
  const IcmpHeaderLength := 8
  /** `receiveOnePing` assumes an IPv4 header without options. */
  const IpHeaderLength := 20
  const PayloadLength := 192
  /** The payload octet, ASCII 'Q'. */
  const PayloadOctet: byte := 0x51

  /** The five fields of the 'bbHHh' layout, as the Python integers given to `pack` or returned by `unpack`. */
  datatype IcmpHeader = IcmpHeader(icmpType: int, code: int, checksum: int, identifier: int, sequence: int) {
    /** The values `struct.pack('bbHHh', ...)` accepts. */
    predicate InRange() {
      IsSignedByte(icmpType) && IsSignedByte(code) && IsUShort(checksum) && IsUShort(identifier) && IsShort(sequence)
    }
  }

  /** The Echo Request header `sendOnePing` packs (lines 132 and 137). */
  function EchoHeader(id: int, checksum: int): (h: IcmpHeader)
    ensures h.InRange() <==> IsUShort(id) && IsUShort(checksum)
  {
    IcmpHeader(EchoRequestType, EchoCode, checksum, id, EchoSequence)
  }

  /**
   `struct.pack('bbHHh', ...)`: eight octets, or the error for the first
   field, in argument order, that its code cannot hold.
   */
  function PackHeader(host: Endian, h: IcmpHeader): (r: Result<seq<byte>>)
    ensures r.Ok? <==> h.InRange()
    ensures r.Ok? ==> |r.value| == IcmpHeaderLength
  {
    if !IsSignedByte(h.icmpType) || !IsSignedByte(h.code) then Err(ByteOutOfRange)
    else if !IsUShort(h.checksum) || !IsUShort(h.identifier) then Err(UShortOutOfRange)
    else if !IsShort(h.sequence) then Err(ShortOutOfRange)
    else Ok([PackSignedByte(h.icmpType), PackSignedByte(h.code)]
            + PackUShort(host, h.checksum) + PackUShort(host, h.identifier) + PackShort(host, h.sequence))
  }

  /** `struct.unpack('bbHHh', b)`: accepts exactly eight octets. */
  function UnpackHeader(host: Endian, b: seq<byte>): (r: Result<IcmpHeader>)
    ensures r.Ok? <==> |b| == IcmpHeaderLength
    ensures r.Ok? ==> r.value.InRange()
    ensures r.Err? ==> r.error == BufferSizeMismatch(IcmpHeaderLength, |b|)
  {
    if |b| != IcmpHeaderLength then Err(BufferSizeMismatch(IcmpHeaderLength, |b|))
    else Ok(IcmpHeader(UnpackSignedByte(b[0]), UnpackSignedByte(b[1]),
                       UnpackUShort(host, b[2..4]), UnpackUShort(host, b[4..6]), UnpackShort(host, b[6..8])))
  }

  /** Unpacking what was packed gives back the fields. */
  lemma UnpackPackHeader(host: Endian, h: IcmpHeader)
    requires h.InRange()
    ensures PackHeader(host, h).Ok?
    ensures UnpackHeader(host, PackHeader(host, h).value) == Ok(h)
  {
    var b := PackHeader(host, h).value;
    SignedByteRoundTrip(h.icmpType, 0);
    SignedByteRoundTrip(h.code, 0);
    assert b[2..4] == PackUShort(host, h.checksum);
    assert b[4..6] == PackUShort(host, h.identifier);
    assert b[6..8] == PackShort(host, h.sequence);
    UShortRoundTrip(host, h.checksum, []);
    UShortRoundTrip(host, h.identifier, []);
    ShortRoundTrip(host, h.sequence, []);
  }

  /** Packing what was unpacked gives back the octets. */
  lemma PackUnpackHeader(host: Endian, b: seq<byte>)
    requires |b| == IcmpHeaderLength
    ensures UnpackHeader(host, b).Ok?
    ensures PackHeader(host, UnpackHeader(host, b).value) == Ok(b)
  {
    SignedByteRoundTrip(0, b[0]);
    SignedByteRoundTrip(0, b[1]);
    UShortRoundTrip(host, 0, b[2..4]);
    UShortRoundTrip(host, 0, b[4..6]);
    ShortRoundTrip(host, 0, b[6..8]);
    assert b == [b[0], b[1]] + b[2..4] + b[4..6] + b[6..8];
  }

  /** Line 133: 192 octets of 'Q'. */
  function Payload(): (p: seq<byte>)
    ensures |p| == PayloadLength
    ensures forall i :: 0 <= i < |p| ==> p[i] == PayloadOctet
  {
    seq(PayloadLength, _ => PayloadOctet)
  }

  /** Lines 132-135: the packet as it is checksummed, with the checksum field 0. */
  function UnsummedRequest(host: Endian, id: int): (r: Result<seq<byte>>)
    ensures r.Ok? <==> IsUShort(id)
    ensures r.Ok? ==> |r.value| == IcmpHeaderLength + PayloadLength
  {
    var header :- PackHeader(host, EchoHeader(id, 0));
    Ok(header + Payload())
  }

  /**
   Lines 132-140: the Echo Request `sendOnePing` hands to `sendto`. The
   identifier must fit an unsigned short, or `struct.pack` raises.
   */
  function EchoRequest(host: Endian, id: int): (r: Result<seq<byte>>)
    ensures r.Ok? <==> IsUShort(id)
    ensures r.Err? ==> r.error == UShortOutOfRange
  {
    var unsummed :- UnsummedRequest(host, id);
    var header := EchoHeader(id, ChecksumOf(host, unsummed));
    Ok(PackHeader(host, header).value + Payload())
  }

  /**
   `sendOnePing` up to the `sendto` call. Its only role is to connect the
   `Checksum` method to the pure encoder: calling the method yields
   exactly the packet `EchoRequest` describes.
   */
  method SendOnePing(host: Endian, id: int) returns (r: Result<seq<byte>>)
    ensures r == EchoRequest(host, id)
  {
    var header :- PackHeader(host, EchoHeader(id, 0));
    var data := Payload();
    var checksum;
    ghost var rounds;
    checksum, rounds := Checksum(host, header + data);
    r := Ok(PackHeader(host, EchoHeader(id, checksum)).value + data);
  }

  /**
   The encoded packet is 200 octets: type 8, code 0, the checksum of the
   unsummed packet at 2-3, the identifier at 4-5 and sequence 1 at 6-7 in
   host order, then 192 octets of 'Q'.
   */
  lemma EchoRequestLayout(host: Endian, id: int)
    requires IsUShort(id)
    ensures UnsummedRequest(host, id).Ok? && EchoRequest(host, id).Ok?
    ensures var p := EchoRequest(host, id).value;
      && |p| == IcmpHeaderLength + PayloadLength
      && p[0] == EchoRequestType && p[1] == EchoCode
      && p[2..4] == PackUShort(host, ChecksumOf(host, UnsummedRequest(host, id).value))
      && p[4..6] == PackUShort(host, id)
      && p[6..8] == PackShort(host, EchoSequence)
      && forall i :: IcmpHeaderLength <= i < |p| ==> p[i] == PayloadOctet
  {
  }

  /** The unsummed packet has a zero checksum field. */
  lemma UnsummedLayout(host: Endian, id: int)
    requires IsUShort(id)
    ensures UnsummedRequest(host, id).Ok?
    ensures var z := UnsummedRequest(host, id).value;
      |z| == IcmpHeaderLength + PayloadLength && z[2] == 0 && z[3] == 0
  {
  }

  /** Re-packing with the real checksum changes octets 2 and 3 and nothing else. */
  lemma OnlyChecksumFieldChanges(host: Endian, id: int)
    requires IsUShort(id)
    ensures UnsummedRequest(host, id).Ok? && EchoRequest(host, id).Ok?
    ensures var z, p := UnsummedRequest(host, id).value, EchoRequest(host, id).value;
      && p == z[..2] + PackUShort(host, ChecksumOf(host, z)) + z[4..]
      && |p| == |z|
      && forall i :: 0 <= i < |p| && i != 2 && i != 3 ==> p[i] == z[i]
  {
    var z, p := UnsummedRequest(host, id).value, EchoRequest(host, id).value;
    var cs := ChecksumOf(host, z);
    var h0 := PackHeader(host, EchoHeader(id, 0)).value;
    var h := PackHeader(host, EchoHeader(id, cs)).value;
    assert h == h0[..2] + PackUShort(host, cs) + h0[4..];
    assert z[..2] == h0[..2];
    assert z[4..] == h0[4..] + Payload();
    assert p == z[..2] + PackUShort(host, cs) + z[4..];
  }

  /**
   The verification rule of section 1 of RFC 1071 holds for every packet
   `sendOnePing` sends: its checksum, checksum field included, is 0, on
   either byte order, since line 137 packs and line 63 reads the field
   consistently.
   */
  lemma EchoRequestVerifies(host: Endian, id: int)
    requires IsUShort(id)
    ensures EchoRequest(host, id).Ok?
    ensures ChecksumOf(host, EchoRequest(host, id).value) == 0
  {
    UnsummedLayout(host, id);
    OnlyChecksumFieldChanges(host, id);
    EmbeddedChecksumVerifies(host, UnsummedRequest(host, id).value, 2);
  }

  /** Line 148: `int(random() * 65535)` for a draw `u` in [0, 1). */
  function ProbeIdentifier(u: real): (id: int)
    requires 0.0 <= u < 1.0
    ensures 0 <= id <= 0xfffe
  {
    (u * 65535.0).Floor
  }

  /** Every identifier line 148 can draw yields a packet that verifies. */
  lemma ProbeIdentifierEncodes(host: Endian, u: real)
    requires 0.0 <= u < 1.0
    ensures EchoRequest(host, ProbeIdentifier(u)).Ok?
    ensures ChecksumOf(host, EchoRequest(host, ProbeIdentifier(u)).value) == 0
  {
    EchoRequestVerifies(host, ProbeIdentifier(u));
  }

  function Min(a: int, b: int): int
  {
    if a <= b then a else b
  }

  /** Python's `s[lo:hi]` for `0 <= lo <= hi`: bounds past the end are clamped to it. */
  function Slice(s: seq<byte>, lo: nat, hi: nat): (r: seq<byte>)
    requires lo <= hi
    ensures |r| == Min(hi, |s|) - Min(lo, |s|)
    ensures hi <= |s| ==> r == s[lo..hi]
  {
    s[Min(lo, |s|)..Min(hi, |s|)]
  }

  /**
   Lines 106-107: the ICMP header at octets 20..28 of the received
   datagram. A datagram shorter than 28 octets gives a shorter slice,
   which `struct.unpack` rejects.
   */
  function ReplyHeader(host: Endian, packet: seq<byte>): (r: Result<IcmpHeader>)
    ensures r.Ok? <==> |packet| >= IpHeaderLength + IcmpHeaderLength
    ensures r.Ok? ==> r.value.InRange()
    ensures r.Err? ==> r.error.BufferSizeMismatch? && r.error.given < IcmpHeaderLength
  {
    UnpackHeader(host, Slice(packet, IpHeaderLength, IpHeaderLength + IcmpHeaderLength))
  }

  /** What the readiness wait on line 99 yields: nothing before the timeout, or one datagram. */
  datatype Arrival = NotReady | Datagram(packet: seq<byte>)

  /** What `receiveOnePing` learns: a timeout, or the reply header and whether its identifier is ours (line 120). */
  datatype Reception = TimedOut | Received(header: IcmpHeader, sameId: bool)

  /**
   `receiveOnePing` (lines 96-128) without the clock: a timeout, or the
   decoded header of the one datagram read, whatever its identifier.
   A datagram too short to hold the header is the `struct.error` case.
   */
  function ReceiveOnePing(host: Endian, arrival: Arrival, id: int): (r: Result<Reception>)
    ensures arrival.NotReady? ==> r == Ok(TimedOut)
    ensures arrival.Datagram? ==> (r.Ok? <==> IpHeaderLength + IcmpHeaderLength <= |arrival.packet|)
    ensures arrival.Datagram? && r.Ok? ==> r.value.Received? && Ok(r.value.header) == ReplyHeader(host, arrival.packet)
    ensures r.Ok? && r.value.Received? ==> r.value.sameId == (r.value.header.identifier == id)
  {
    match arrival
    case NotReady => Ok(TimedOut)
    case Datagram(packet) =>
      var header :- ReplyHeader(host, packet);
      Ok(Received(header, header.identifier == id))
  }

  /** Behind a 20-octet IPv4 header, a packed header decodes to its own fields, whatever follows it. */
  lemma ReplyHeaderOfPacked(host: Endian, ip: seq<byte>, h: IcmpHeader, rest: seq<byte>)
    requires |ip| == IpHeaderLength && h.InRange()
    ensures PackHeader(host, h).Ok?
    ensures ReplyHeader(host, ip + PackHeader(host, h).value + rest) == Ok(h)
  {
    var b := PackHeader(host, h).value;
    var d := ip + b + rest;
    assert d[IpHeaderLength..IpHeaderLength + IcmpHeaderLength] == b;
    UnpackPackHeader(host, h);
  }

  /**
   For any datagram carrying a packed header behind a 20-octet IPv4
   header, `receiveOnePing` reports that header, and the comparison on
   line 120 is true exactly when its identifier is the one sent: a reply
   to another probe gives `sameId == false`.
   */
  lemma ReceivePacked(host: Endian, ip: seq<byte>, h: IcmpHeader, rest: seq<byte>, id: int)
    requires |ip| == IpHeaderLength && h.InRange()
    ensures PackHeader(host, h).Ok?
    ensures ReceiveOnePing(host, Datagram(ip + PackHeader(host, h).value + rest), id) == Ok(Received(h, h.identifier == id))
  {
    ReplyHeaderOfPacked(host, ip, h, rest);
  }

  /**
   Decoding an IPv4 header followed by the packet `sendOnePing` built
   recovers type 8, code 0, the embedded checksum, the identifier and
   sequence 1, so the identifier comparison on line 120 succeeds.
   */
  lemma EchoRoundTrip(host: Endian, ip: seq<byte>, id: int)
    requires |ip| == IpHeaderLength && IsUShort(id)
    ensures UnsummedRequest(host, id).Ok? && EchoRequest(host, id).Ok?
    ensures var cs := ChecksumOf(host, UnsummedRequest(host, id).value);
      && ReplyHeader(host, ip + EchoRequest(host, id).value) == Ok(EchoHeader(id, cs))
      && ReceiveOnePing(host, Datagram(ip + EchoRequest(host, id).value), id) == Ok(Received(EchoHeader(id, cs), true))
  {
    var cs := ChecksumOf(host, UnsummedRequest(host, id).value);
    var h := EchoHeader(id, cs);
    ReplyHeaderOfPacked(host, ip, h, Payload());
    var p := EchoRequest(host, id).value;
    assert p == PackHeader(host, h).value + Payload();
    assert ip + p == ip + PackHeader(host, h).value + Payload();
    assert ReplyHeader(host, ip + p) == Ok(h);
  }

  /** A datagram shorter than 28 octets is rejected, never read past its end. */
  lemma ShortReplyRejected(host: Endian, packet: seq<byte>, id: int)
    requires |packet| < IpHeaderLength + IcmpHeaderLength
    ensures ReceiveOnePing(host, Datagram(packet), id).Err?
    ensures ReplyHeader(host, packet) == Err(BufferSizeMismatch(IcmpHeaderLength, |packet| - Min(IpHeaderLength, |packet|)))
  {
  }
}
