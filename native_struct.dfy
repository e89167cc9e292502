/**
 The parts of Python's `struct` module that the ping code relies on: the
 native-order field codes 'b' (signed char), 'H' (unsigned short) and
 'h' (signed short), and the errors `struct.pack` and `struct.unpack`
 raise. Native order follows the host, so the host's byte order is an
 explicit parameter everywhere.
 */
module NativeStruct {

  /** One octet of a `bytes` object. */
  type byte = x: int | 0 <= x < 0x100

  /** Byte order of the machine the program runs on. */
  datatype Endian = LittleEndian | BigEndian

  /** The `struct.error` cases the ping code can reach. */
  datatype StructError =
    | ByteOutOfRange                               // 'b' requires -128 <= number <= 127
    | UShortOutOfRange                             // 'H' requires 0 <= number <= 0xffff
    | ShortOutOfRange                              // 'h' requires -32768 <= number <= 32767
    | BufferSizeMismatch(required: nat, given: nat) // unpack requires a buffer of exactly `required` bytes

  /** A value, or the `struct.error` that Python would raise instead. */
  datatype Result<T> = Ok(value: T) | Err(error: StructError) {
    predicate IsFailure() { Err? }

    function PropagateFailure<U>(): Result<U>
      requires Err?
    {
      Err(error)
    }

    function Extract(): T
      requires Ok?
    {
      value
    }
  }

  predicate IsSignedByte(v: int) { -0x80 <= v < 0x80 }
  predicate IsUShort(v: int) { 0 <= v < 0x10000 }
  predicate IsShort(v: int) { -0x8000 <= v < 0x8000 }

  /** 'b': two's-complement octet of a signed char. */
  function PackSignedByte(v: int): (r: byte)
    requires IsSignedByte(v)
    ensures UnpackSignedByte(r) == v
  {
    if v < 0 then v + 0x100 else v
  }

  function UnpackSignedByte(b: byte): (v: int)
    ensures IsSignedByte(v)
  {
    if b >= 0x80 then b - 0x100 else b
  }

  /** 'H': the two octets of an unsigned short, in host order. */
  function PackUShort(host: Endian, v: int): (r: seq<byte>)
    requires IsUShort(v)
    ensures |r| == 2
  {
    match host
    case LittleEndian => [v % 0x100, v / 0x100]
    case BigEndian => [v / 0x100, v % 0x100]
  }

  function UnpackUShort(host: Endian, b: seq<byte>): (v: int)
    requires |b| == 2
    ensures IsUShort(v)
  {
    match host
    case LittleEndian => b[0] as int + b[1] as int * 0x100
    case BigEndian => b[0] as int * 0x100 + b[1] as int
  }

  /** 'h': a signed short as its 16-bit two's complement, in host order. */
  function PackShort(host: Endian, v: int): (r: seq<byte>)
    requires IsShort(v)
    ensures |r| == 2
  {
    PackUShort(host, if v < 0 then v + 0x10000 else v)
  }

  function UnpackShort(host: Endian, b: seq<byte>): (v: int)
    requires |b| == 2
    ensures IsShort(v)
  {
    var u := UnpackUShort(host, b);
    if u >= 0x8000 then u - 0x10000 else u
  }

  lemma SignedByteRoundTrip(v: int, b: byte)
    ensures IsSignedByte(v) ==> UnpackSignedByte(PackSignedByte(v)) == v
    ensures PackSignedByte(UnpackSignedByte(b)) == b
  {
  }

  lemma UShortRoundTrip(host: Endian, v: int, b: seq<byte>)
    ensures IsUShort(v) ==> UnpackUShort(host, PackUShort(host, v)) == v
    ensures |b| == 2 ==> PackUShort(host, UnpackUShort(host, b)) == b
  {
  }

  lemma ShortRoundTrip(host: Endian, v: int, b: seq<byte>)
    ensures IsShort(v) ==> UnpackShort(host, PackShort(host, v)) == v
    ensures |b| == 2 ==> PackShort(host, UnpackShort(host, b)) == b
  {
    UShortRoundTrip(host, if v < 0 then v + 0x10000 else v, b);
  }
}
