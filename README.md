# ICMP ping packet path: a Dafny model

This project models the ICMP packet path of the `ICMPPing` tool in
`NetworkApplications.py`. It has three parts:

- **`NetworkApplication.checksum`** is the 16-bit one's-complement Internet checksum of RFC 1071. It sums byte pairs as little-endian words into an accumulator masked to 32 bits, and adds a trailing odd byte with weight 1. It then folds the carries twice, complements the result, masks it to 16 bits, byte-swaps it and applies `socket.htons`. It is modelled as the method `InternetChecksum.Checksum`, whose loop is proved against the specification function `ChecksumOf`.
- **`ICMPPing.sendOnePing`** builds an RFC 792 Echo Request (type 8, code 0). It packs the header `struct.pack('bbHHh', 8, 0, 0, ID, 1)` and appends 192 octets of `'Q'`. It checksums the result, then re-packs the header with that checksum. Modelled as the function `IcmpPing.EchoRequest` and the method `IcmpPing.SendOnePing`, which calls `Checksum`.
- **`ICMPPing.receiveOnePing`** slices octets 20..28 of the received datagram, unpacks them with `'bbHHh'` and compares the identifier with the one sent. Modelled as `IcmpPing.ReplyHeader` and `IcmpPing.ReceiveOnePing`.

Modules:

- `NativeStruct` (`native_struct.dfy`): the `struct` field codes the code uses (`b`, `H`, `h`), in native byte order. It also holds the `struct.error` cases, as a `Result` datatype.
- `InternetChecksum` (`internet_checksum.dfy`): the checksum method, its specification function, and a reference definition of the RFC 1071 sum, with the lemmas between them.
- `IcmpPing` (`icmp_ping.dfy`): packing and unpacking the header, the Echo Request encoder, and the reply decoder.

Modelling choices:

- **Host byte order.** It is an explicit parameter, `Endian`. The format `'bbHHh'` has no prefix, so it is native order with no padding: `b` at 0, `b` at 1, `H` at 2, `H` at 4, `h` at 6. `socket.htons` also depends on the host. The word read on line 63 is little-endian on every host.
- **Python operators.** They are written out on unbounded integers:
  - `x >> k` is `x / 2^k`.
  - `x & (2^k-1)` is `x % 2^k`. Dafny's `%` is Euclidean, which also matches `&` on the negative value of `~x`.
  - `~x` is `-x - 1`.
  - `a >> 8 | (a << 8 & 0xff00)` is a sum, because its two operands share no bit.
- **Errors.**
  - `struct.pack` raises on out-of-range values; `struct.unpack` raises on a buffer that is not 8 bytes long. The model returns `Err` in both cases.
  - `packet[20:28]` clamps at the end of a short buffer, so a datagram shorter than 28 octets gives a short slice, which unpacking rejects.
- **Outside inputs.**
  - The random draw of line 148 is a parameter `u` in [0, 1).
  - The readiness wait of line 99 is a parameter: `NotReady`, or the one datagram `recvfrom` returned.

Where the code departs from RFC 792, RFC 1071 or common ICMP practice, the model follows the code:

- **Byte order.** RFC 792 puts the identifier and sequence number in network byte order. The code packs both fields in native order (line 132). Section 2(A) of RFC 1071 allows the checksum to be summed in either byte order, provided the result is swapped back. The code reads little-endian words on every host (line 63). On a big-endian host it therefore sums byte-swapped words, and the swap on line 76 restores the result, which `htons` on line 78 then leaves unchanged. On a little-endian host the swap and `htons` cancel. `LittleEndianIsRfc1071` and `BigEndianIsRfc1071` state the result on each host. `PackedChecksumWord` and `EchoRequestVerifies` prove that the embedded checksum verifies on either host.
- **Carry folding.** RFC 1071 folds carries until none remains. The code folds exactly twice (lines 72-73). `FoldIsOnesValue` proves that two folds are enough for any 32-bit accumulator.
- **Identifier range.** An RFC 792 identifier can be any 16-bit value, 0..65535. `int(random() * 65535)` on line 148 gives only 0..65534 (`ProbeIdentifier`).
- **Signedness of type and code.** RFC 792 defines type and code as unsigned octets. The code unpacks them with `b` on line 107, as signed values in -128..127.
- **Short replies.** The code does not check the length of a reply. On a datagram shorter than 28 octets, `struct.unpack` on line 107 raises `struct.error`, which the code lets propagate; the model returns it as `Err`.

## Model

| member | source | states |
|---|---|---|
| `InternetChecksum.Checksum` | NetworkApplications.py:57-80 | the loop and the steps after it return `ChecksumOf(host, data)`, a value in 0..0xffff; the word loop runs exactly `|data| / 2` times, and every index it reads is in bounds |
| `InternetChecksum.ChecksumOf` | NetworkApplications.py:57-80 | the checksum of any buffer, empty included, is a 16-bit value |
| `InternetChecksum.Word` | NetworkApplications.py:63 | a byte pair read as `hi * 256 + lo` is at most 0xffff |
| `InternetChecksum.Swap16` | NetworkApplications.py:76 | the result has the two octets of the argument exchanged |
| `InternetChecksum.Htons` | NetworkApplications.py:78 | `htons` of a 16-bit value is a 16-bit value |
| `InternetChecksum.HtonsIsNetworkOrder` | NetworkApplications.py:78 | on either host, the result of `htons` packed in native order is the argument in network (big-endian) order |
| `InternetChecksum.AccumulateWord` | NetworkApplications.py:63-65 | adding the word at an even `count` to the masked sum of the words before it gives the masked sum of the words up to `count + 2` |
| `InternetChecksum.AccumulateLast` | NetworkApplications.py:68-70 | for an odd length, adding the last byte to the masked sum of the words gives the masked sum of the whole buffer |
| `InternetChecksum.MaskedAdd` | NetworkApplications.py:64-65 | masking to 32 bits after every addition gives the same value as masking once at the end |
| `InternetChecksum.WordSum` | NetworkApplications.py:62-70 | the unmasked reference sum of line 63's words and a trailing byte; its properties are stated by `WordSumAppend`, `WordSumStep`, `WordSumLast`, `WordSumBound`, `WordSumAt` and `WordSumFilled` |
| `InternetChecksum.WordSumAppend` | NetworkApplications.py:62-66 | the word sum of a concatenation splits at any even boundary |
| `InternetChecksum.WordSumStep` | NetworkApplications.py:62-66 | one loop iteration adds exactly the little-endian word at `count` |
| `InternetChecksum.WordSumLast` | NetworkApplications.py:68-70 | for an odd length, only the last byte is added on its own, with weight 1 |
| `InternetChecksum.WordSumBound` | NetworkApplications.py:62-70 | the sum is at most 0xffff per word plus 0xff for a trailing byte |
| `InternetChecksum.Accumulator` | NetworkApplications.py:62-70 | the 32-bit accumulator is below 2^32, and equals the exact word sum whenever that sum is below 2^32 |
| `InternetChecksum.Fold` | NetworkApplications.py:72-73 | two folds give 0 exactly for a zero accumulator, and at most 0x1ffff for any 32-bit accumulator |
| `InternetChecksum.Complement16` | NetworkApplications.py:74-75 | `~csum & 0xffff` is a 16-bit value that, added to `csum`, gives 0xffff modulo 2^16 |
| `InternetChecksum.AccumulatorExact` | NetworkApplications.py:62-70 | for inputs of at most 131074 bytes the accumulator is below 2^32 and equals the exact word sum |
| `InternetChecksum.OnesSum` | NetworkApplications.py:57-80 | reference definition of RFC 1071, taken over little-endian words as its section 2(A) allows: words added with end-around carry as they occur; the sum stays in 0..0xffff |
| `InternetChecksum.OnesValue` | NetworkApplications.py:72-73 | the one's-complement value of a total is 0 exactly for a zero total, and otherwise lies in 1..0xffff |
| `InternetChecksum.OnesSumIsOnesValue` | NetworkApplications.py:62-73 | the end-around-carry sum is congruent to the plain word sum modulo 0xffff, and 0 only for a zero sum |
| `InternetChecksum.FoldIsOnesValue` | NetworkApplications.py:72-73 | two folds suffice for any 32-bit accumulator: the result is at most 0x1ffff and its low 16 bits are the one's-complement sum |
| `InternetChecksum.DeferredCarries` | NetworkApplications.py:62-73 | summing with deferred carries and folding agrees with the end-around-carry sum, for inputs of at most 131074 bytes |
| `InternetChecksum.ComplementLow16` | NetworkApplications.py:74-75 | `~x & 0xffff` is 0xffff minus the low 16 bits of `x` |
| `InternetChecksum.Swap16Twice` | NetworkApplications.py:76-78 | swapping the octets twice is the identity |
| `InternetChecksum.LittleEndianChecksum` | NetworkApplications.py:74-78 | on a little-endian host the swap and `htons` cancel: the result is `~fold(sum) & 0xffff` |
| `InternetChecksum.ComplementOfOnesSum` | NetworkApplications.py:62-75 | for inputs of at most 131074 bytes, lines 62-75 give 0xffff minus the one's-complement sum of the little-endian words |
| `InternetChecksum.LittleEndianIsRfc1071` | NetworkApplications.py:57-80 | on a little-endian host the result is the one's complement of the RFC 1071 one's-complement sum |
| `InternetChecksum.BigEndianIsRfc1071` | NetworkApplications.py:57-80 | on a big-endian host the result is that complement with its octets swapped, as section 2(A) of RFC 1071 requires for byte-swapped words |
| `InternetChecksum.EmptyChecksum` | NetworkApplications.py:58-80 | an empty buffer checksums to 0xffff on either byte order |
| `InternetChecksum.KnownVector` | NetworkApplications.py:57-80 | the octets `08 00 00 00 00 01 00 01` checksum to 0xfdf7 on a little-endian host and 0xf7fd on a big-endian one |
| `InternetChecksum.PackedChecksumWord` | NetworkApplications.py:57-80 | on either host, the checksum packed as native `H` reads back, as the word line 63 sums, as `~fold(sum) & 0xffff` |
| `InternetChecksum.WordSumAt` | NetworkApplications.py:62-66 | a word at an even offset contributes exactly its own value |
| `InternetChecksum.WordSumFilled` | NetworkApplications.py:62-66 | writing a value over a zero word at an even offset adds that word to the sum |
| `InternetChecksum.ComplementCancels` | NetworkApplications.py:72-75 | adding the complement of the folded sum back in makes the complement of the new folded sum 0 |
| `InternetChecksum.AccumulatorFilled` | NetworkApplications.py:62-70 | for a buffer of at most 65535 octets, filling a zero field at an even offset with its own checksum adds exactly that checksum's word to the accumulator, with no room for overflow |
| `InternetChecksum.EmbeddedChecksumVerifies` | NetworkApplications.py:57-80 | the verification rule of RFC 1071 section 1: a buffer with its own checksum packed into a zeroed even-aligned field checksums to 0, on either host |
| `NativeStruct.PackSignedByte` | NetworkApplications.py:132 | code `b` packs a value in -128..127 to the octet that unpacks back to it |
| `NativeStruct.UnpackSignedByte` | NetworkApplications.py:107 | code `b` decodes an octet to a value in -128..127 |
| `NativeStruct.PackUShort` | NetworkApplications.py:132 | code `H` packs to two octets |
| `NativeStruct.UnpackUShort` | NetworkApplications.py:107 | code `H` decodes to a value in 0..0xffff |
| `NativeStruct.PackShort` | NetworkApplications.py:132 | code `h` packs to two octets |
| `NativeStruct.UnpackShort` | NetworkApplications.py:107 | code `h` decodes to a value in -32768..32767 |
| `NativeStruct.SignedByteRoundTrip` | NetworkApplications.py:107 | code `b`: unpack inverts pack on -128..127, and pack inverts unpack on every octet |
| `NativeStruct.UShortRoundTrip` | NetworkApplications.py:107 | code `H`, in both directions, on either host |
| `NativeStruct.ShortRoundTrip` | NetworkApplications.py:107 | code `h`, in both directions, on either host |
| `IcmpPing.PackHeader` | NetworkApplications.py:132 | `pack('bbHHh', ...)` succeeds exactly when every field is in range of its code, and then gives 8 octets |
| `IcmpPing.UnpackHeader` | NetworkApplications.py:107 | `unpack('bbHHh', b)` succeeds exactly when `b` has 8 octets, with every field in range; otherwise it reports the size mismatch |
| `IcmpPing.UnpackPackHeader` | NetworkApplications.py:107 | unpacking a packed header gives back its fields |
| `IcmpPing.PackUnpackHeader` | NetworkApplications.py:107 | packing an unpacked header gives back its octets |
| `IcmpPing.EchoHeader` | NetworkApplications.py:132-137 | the Echo Request header (type 8, code 0, sequence 1) is packable exactly when the identifier and the checksum fit an unsigned short |
| `IcmpPing.Payload` | NetworkApplications.py:133 | the data is 192 octets, each 0x51 (`'Q'`) |
| `IcmpPing.UnsummedRequest` | NetworkApplications.py:132-135 | the packet checksummed on line 135 is built exactly when the identifier fits an unsigned short, and then has 200 octets |
| `IcmpPing.EchoRequest` | NetworkApplications.py:132-140 | the packet is built exactly when the identifier fits an unsigned short, and otherwise `pack` reports the unsigned-short range error |
| `IcmpPing.SendOnePing` | NetworkApplications.py:130-140 | the method that calls `Checksum` builds exactly `EchoRequest(host, id)` |
| `IcmpPing.EchoRequestLayout` | NetworkApplications.py:132-140 | 200 octets: 8, 0, the checksum, the identifier, sequence 1 in host order, then 192 octets of 0x51 |
| `IcmpPing.UnsummedLayout` | NetworkApplications.py:132-135 | the packet that is checksummed has 200 octets and a zero checksum field |
| `IcmpPing.OnlyChecksumFieldChanges` | NetworkApplications.py:132-137 | the final packet differs from the checksummed one only at octets 2-3, which hold the packed checksum |
| `IcmpPing.EchoRequestVerifies` | NetworkApplications.py:132-140 | the checksum of every packet sent, checksum field included, is 0 on either byte order |
| `IcmpPing.ProbeIdentifier` | NetworkApplications.py:148 | `int(random() * 65535)` lies in 0..65534 |
| `IcmpPing.ProbeIdentifierEncodes` | NetworkApplications.py:148 | every identifier line 148 can draw gives a packet that is built and verifies |
| `IcmpPing.Slice` | NetworkApplications.py:106 | Python slicing clamps both bounds to the length, and is the plain slice when the buffer is long enough |
| `IcmpPing.ReplyHeader` | NetworkApplications.py:106-107 | the header is decoded exactly when the datagram has at least 28 octets, with type and code in -128..127; a shorter datagram is a size error |
| `IcmpPing.ReceiveOnePing` | NetworkApplications.py:96-128 | no readiness is a timeout; a datagram is decoded exactly when it has at least 28 octets, and then gives `Received` with the header that octets 20..28 decode to; the identifier flag is true exactly when the identifiers are equal (line 120) |
| `IcmpPing.ReceivePacked` | NetworkApplications.py:106-120 | a datagram holding a packed header behind a 20-octet IPv4 header is received with exactly that header, and the identifier flag is false for a reply to another identifier |
| `IcmpPing.ReplyHeaderOfPacked` | NetworkApplications.py:106-107 | behind a 20-octet IPv4 header, a packed header decodes to its own fields, whatever follows |
| `IcmpPing.EchoRoundTrip` | NetworkApplications.py:106-120 | an IPv4 header followed by the sent packet decodes to type 8, code 0, the embedded checksum, the identifier and sequence 1, and the identifier comparison succeeds |
| `IcmpPing.ShortReplyRejected` | NetworkApplications.py:106-107 | a datagram shorter than 28 octets gives the size error, never a read past its end |

## Left out

- Argument parsing (`setupArgumentParser`, lines 14-52): library configuration, with no logic of the packet path.
- Raw socket creation, `sendto`, `select`, `recvfrom` and `close` (lines 99-103, 141, 147, 154): I/O. The wait's outcome and the datagram received are inputs of `ReceiveOnePing`.
- The clock (`time.time()` on lines 128 and 143), `time.sleep` (line 171), and the delay and millisecond arithmetic (lines 158, 173) are left out, because they are a clock and floating point. `ReceiveOnePing` returns what was decoded rather than a timestamp.
- `random.random()` (line 148): the draw is a parameter. `ProbeIdentifier` uses exact real arithmetic, so the rounding of the float product is not modelled.
- `doOnePing` and `ICMPPing.__init__` (lines 145-173): apart from the identifier draw of line 148, which `ProbeIdentifier` models, they only sequence socket calls, the clock, the sleep and printing around the modelled send and receive. Line 152 passes the global `args.timeout` to `receiveOnePing` instead of `doOnePing`'s own `timeout` parameter. The wait's outcome is an input of `ReceiveOnePing`, so which timeout is used is not modelled.
- A lost reply ends the program. On a timeout `receiveOnePing` returns `None` (line 102), and `timerecieved - timesent` on line 158 then raises `TypeError`, which nothing catches. `ReceiveOnePing` returns `Ok(TimedOut)` for this case. That result describes `receiveOnePing` only; the crash in `doOnePing` that follows it is not modelled.
- `printOneResult`, `printAdditionalDetails` and the debug `print` calls: console formatting of floats.
- `WebServer`, `Traceroute` and `Proxy` (lines 177-224): a blocking TCP accept loop and empty stubs, with no packet logic.
- The `while True` loop in `receiveOnePing` (lines 98-118) always leaves on its first pass, by `return` or `break`, so it is modelled without a loop.
- EmbeddedChecksumVerifies: stated only for buffers of at most 65535 octets (the largest IPv4 datagram), so that no sum overflows the 32-bit accumulator.
- DeferredCarries: stated only for inputs of at most 131074 bytes. Beyond that, the 32-bit masks on lines 65 and 70 drop carries, and the source's result no longer follows RFC 1071.
- LittleEndianIsRfc1071: stated under the same bound as DeferredCarries, for the same reason.
- BigEndianIsRfc1071: stated under the same bound as DeferredCarries, for the same reason.
- ComplementOfOnesSum: stated under the same bound as DeferredCarries, for the same reason.
