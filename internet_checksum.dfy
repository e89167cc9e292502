/**
 `NetworkApplication.checksum`: the 16-bit one's-complement Internet
 checksum of RFC 1071, computed the way the source does it. Byte pairs are
 read as little-endian words (high byte second) and summed into a 32-bit
 accumulator, a trailing odd byte is added with weight 1, the carries are
 folded twice, and the low 16 bits of the complement are byte-swapped and
 passed through `socket.htons`.

 Python's operators on the non-negative accumulator are written out on
 unbounded integers: `x >> k` is `x / 2^k`, `x & (2^k - 1)` is `x % 2^k`
 (Dafny's `%` is Euclidean, which is also what `&` with such a mask gives
 for the negative value of `~x`), and `~x` is `-x - 1`.
 */
module InternetChecksum {
  import opened NativeStruct

  const TwoTo32 := 0x1_0000_0000

  /**
   Longest input whose word sum cannot exceed 32 bits: 65537 words of
   0xffff sum to exactly 0xffff_ffff.
   */
  const MaxExactLength := 131074

  /**
   Sum of the buffer read as little-endian 16-bit words, with a trailing
   odd byte counted on its own with weight 1. No carry is dropped.
   */
  function WordSum(d: seq<byte>): nat
    decreases |d|
  {
    if |d| == 0 then 0
    else if |d| == 1 then d[0]
    else Word(d[0], d[1]) + WordSum(d[2..])
  }

  /** Line 63: the pair `lo, hi` read as `hi * 256 + lo`. */
  function Word(lo: byte, hi: byte): (w: nat)
    ensures w <= 0xffff
  {
    hi as int * 0x100 + lo as int
  }

  /** The accumulator `csum` after lines 62-70: the word sum, truncated to 32 bits at every step. */
  function Accumulator(d: seq<byte>): (r: nat)
    ensures r < TwoTo32
    ensures WordSum(d) < TwoTo32 ==> r == WordSum(d)
  {
    WordSum(d) % TwoTo32
  }

  /** Lines 72-73: `(csum >> 16) + (csum & 0xffff)`, then `csum + (csum >> 16)`. */
  function Fold(csum: nat): (r: nat)
    ensures csum == 0 <==> r == 0
    ensures csum < TwoTo32 ==> r <= 0x1ffff
  {
    var once := csum / 0x10000 + csum % 0x10000;
    once + once / 0x10000
  }

  /** Lines 74-75: `~csum & 0xffff`. */
  function Complement16(csum: int): (r: int)
    ensures 0 <= r <= 0xffff
    ensures (r + csum) % 0x10000 == 0xffff
  {
    (-csum - 1) % 0x10000
  }

  /** Line 76: `answer >> 8 | (answer << 8 & 0xff00)`; the two operands have no bit in common, so `|` adds them. */
  function Swap16(answer: int): (r: int)
    requires 0 <= answer <= 0xffff
    ensures r == answer % 0x100 * 0x100 + answer / 0x100
  {
    var hi, lo := answer / 0x100, answer % 0x100;
    assert answer * 0x100 == hi * 0x10000 + lo * 0x100;
    hi + (answer * 0x100) % 0x10000
  }

  /** `socket.htons`: swap the two octets on a little-endian host, identity on a big-endian one. */
  function Htons(host: Endian, x: int): (r: int)
    requires 0 <= x <= 0xffff
    ensures 0 <= r <= 0xffff
  {
    match host
    case LittleEndian => Swap16(x)
    case BigEndian => x
  }

  /** What `checksum(data)` returns on `host`. */
  /** `htons` turns host order into network order: packed natively, its result is `x` in big-endian order. */
  lemma HtonsIsNetworkOrder(host: Endian, x: int)
    requires 0 <= x <= 0xffff
    ensures PackUShort(host, Htons(host, x)) == PackUShort(BigEndian, x)
  {
  }

  function ChecksumOf(host: Endian, d: seq<byte>): (r: int)
    ensures 0 <= r <= 0xffff
  {
    Htons(host, Swap16(Complement16(Fold(Accumulator(d)))))
  }

  /**
   `NetworkApplication.checksum` (lines 57-80). `rounds` counts the
   iterations of the word loop.
   */
  method Checksum(host: Endian, data: seq<byte>) returns (answer: int, ghost rounds: nat)
    ensures answer == ChecksumOf(host, data)
    ensures 0 <= answer <= 0xffff
    ensures rounds == |data| / 2
  {
    var csum := 0;
    var countTo := (|data| / 2) * 2;
    var count := 0;
    rounds := 0;

    while count < countTo
      invariant 0 <= count <= countTo
      invariant count == 2 * rounds
      invariant csum == WordSum(data[..count]) % TwoTo32
    {
      var thisVal := data[count + 1] as int * 256 + data[count] as int;
      AccumulateWord(data, count, csum);
      csum := csum + thisVal;
      csum := csum % TwoTo32;
      count := count + 2;
      rounds := rounds + 1;
    }

    if countTo < |data| {
      AccumulateLast(data, csum);
      csum := csum + data[|data| - 1] as int;
      csum := csum % TwoTo32;
    } else {
      assert data[..count] == data;
    }
    assert csum == WordSum(data) % TwoTo32;
    assert csum == Accumulator(data);

    csum := csum / 0x10000 + csum % 0x10000;
    csum := csum + csum / 0x10000;
    assert csum == Fold(Accumulator(data));
    answer := -csum - 1;
    answer := answer % 0x10000;
    assert answer == Complement16(Fold(Accumulator(data)));
    answer := answer / 0x100 + (answer * 0x100) % 0x10000;
    assert answer == Swap16(Complement16(Fold(Accumulator(data))));
    answer := Htons(host, answer);
  }

  /** Lines 63-65: adding the word at `count` to the masked sum of the words before it. */
  lemma AccumulateWord(data: seq<byte>, count: nat, csum: nat)
    requires count % 2 == 0 && count + 2 <= |data|
    requires csum == WordSum(data[..count]) % TwoTo32
    ensures (csum + (data[count + 1] as int * 256 + data[count] as int)) % TwoTo32 == WordSum(data[..count + 2]) % TwoTo32
  {
    WordSumStep(data, count);
    MaskedAdd(WordSum(data[..count]), csum, Word(data[count], data[count + 1]));
  }

  /** Lines 68-70: adding the trailing odd byte to the masked sum of the words. */
  lemma AccumulateLast(data: seq<byte>, csum: nat)
    requires |data| % 2 == 1
    requires csum == WordSum(data[..|data| - 1]) % TwoTo32
    ensures (csum + data[|data| - 1] as int) % TwoTo32 == WordSum(data) % TwoTo32
  {
    WordSumLast(data);
    MaskedAdd(WordSum(data[..|data| - 1]), csum, data[|data| - 1]);
  }

  /** Masking after every addition (lines 65 and 70) is masking once at the end. */
  lemma MaskedAdd(a: nat, csum: nat, w: nat)
    requires csum == a % TwoTo32
    ensures (csum + w) % TwoTo32 == (a + w) % TwoTo32
  {
    assert a + w == (csum + w) + (a / TwoTo32) * TwoTo32;
  }

  /** The word sum splits at any even boundary. */
  lemma {:induction false} WordSumAppend(p: seq<byte>, q: seq<byte>)
    requires |p| % 2 == 0
    ensures WordSum(p + q) == WordSum(p) + WordSum(q)
    decreases |p|
  {
    if |p| == 0 {
      assert p + q == q;
    } else {
      assert (p + q)[2..] == p[2..] + q;
      WordSumAppend(p[2..], q);
    }
  }

  /** One loop iteration adds the word at `count` (line 63). */
  lemma WordSumStep(d: seq<byte>, count: nat)
    requires count % 2 == 0 && count + 2 <= |d|
    ensures WordSum(d[..count + 2]) == WordSum(d[..count]) + Word(d[count], d[count + 1])
  {
    assert d[..count + 2] == d[..count] + d[count..count + 2];
    WordSumAppend(d[..count], d[count..count + 2]);
    assert d[count..count + 2][2..] == [];
  }

  /** For an odd length, the last byte is added alone with weight 1 (line 69). */
  lemma WordSumLast(d: seq<byte>)
    requires |d| % 2 == 1
    ensures WordSum(d) == WordSum(d[..|d| - 1]) + d[|d| - 1]
  {
    assert d == d[..|d| - 1] + [d[|d| - 1]];
    WordSumAppend(d[..|d| - 1], [d[|d| - 1]]);
  }

  /** Every word is at most 0xffff and a trailing byte at most 0xff. */
  lemma {:induction false} WordSumBound(d: seq<byte>)
    ensures WordSum(d) <= 0xffff * (|d| / 2) + 0xff * (|d| % 2)
    decreases |d|
  {
    if |d| >= 2 {
      WordSumBound(d[2..]);
    }
  }

  /** For inputs of at most 131074 bytes the 32-bit mask never drops a carry. */
  lemma AccumulatorExact(d: seq<byte>)
    requires |d| <= MaxExactLength
    ensures WordSum(d) < TwoTo32
    ensures Accumulator(d) == WordSum(d)
  {
    WordSumBound(d);
  }

  /**
   Reference definition from section 1 of RFC 1071: one's-complement
   addition of 16-bit words, a carry out of the top bit being added back
   in at the bottom. By section 2(A) of RFC 1071 the sum may be taken in
   either byte order; `OnesSum` takes it over little-endian words.
   */
  function OnesAdd(a: int, b: int): int
  {
    (a + b) % 0x10000 + (a + b) / 0x10000
  }

  /** The one's-complement sum of the buffer's words, each carry wrapped around as it occurs. */
  function OnesSum(d: seq<byte>): (r: int)
    ensures 0 <= r <= 0xffff
    decreases |d|
  {
    if |d| == 0 then 0
    else if |d| == 1 then OnesAdd(0, d[0])
    else OnesAdd(OnesSum(d[2..]), Word(d[0], d[1]))
  }

  /**
   The value in 0..0xffff that a one's-complement sum of total `s` has:
   0 only for the empty total, otherwise the representative of `s`
   modulo 0xffff in 1..0xffff.
   */
  function OnesValue(s: nat): (r: int)
    ensures 0 <= r <= 0xffff
    ensures s == 0 <==> r == 0
  {
    if s == 0 then 0 else (s - 1) % 0xffff + 1
  }

  /** `OnesValue(s)` is the only positive value up to 0xffff congruent to a positive `s` mod 0xffff. */
  lemma OnesValueUnique(s: nat, x: int, k: int)
    requires 0 < s && 1 <= x <= 0xffff && s == x + k * 0xffff
    ensures OnesValue(s) == x
  {
    assert s - 1 == (x - 1) + k * 0xffff;
  }

  lemma OnesValueAdd(s: nat, w: int)
    requires 0 <= w <= 0xffff
    ensures OnesValue(s + w) == OnesAdd(OnesValue(s), w)
  {
    var v := OnesValue(s);
    if s == 0 {
      if w > 0 {
        OnesValueUnique(w, w, 0);
      }
    } else {
      var k := (s - 1) / 0xffff;
      assert s == v + k * 0xffff;
      if v + w > 0xffff {
        assert OnesAdd(v, w) == v + w - 0xffff;
        OnesValueUnique(s + w, v + w - 0xffff, k + 1);
      } else {
        assert OnesAdd(v, w) == v + w;
        OnesValueUnique(s + w, v + w, k);
      }
    }
  }

  /** Adding words with end-around carry yields `OnesValue` of their plain sum. */
  lemma {:induction false} OnesSumIsOnesValue(d: seq<byte>)
    ensures OnesSum(d) == OnesValue(WordSum(d))
    decreases |d|
  {
    if |d| == 1 {
      assert WordSum(d) == 0 + d[0] && OnesSum(d) == OnesAdd(OnesValue(0), d[0]);
      OnesValueAdd(0, d[0]);
    } else if |d| >= 2 {
      var w, rest := Word(d[0], d[1]), d[2..];
      assert WordSum(d) == WordSum(rest) + w && OnesSum(d) == OnesAdd(OnesSum(rest), w);
      OnesSumIsOnesValue(rest);
      OnesValueAdd(WordSum(rest), w);
    }
  }

  /**
   Two folds suffice for any 32-bit accumulator: the result is at most
   0x1ffff and its low 16 bits are the one's-complement value of the
   accumulator (lines 72-73).
   */
  lemma FoldIsOnesValue(csum: nat)
    requires csum < TwoTo32
    ensures Fold(csum) <= 0x1ffff
    ensures Fold(csum) % 0x10000 == OnesValue(csum)
  {
    var hi, lo := csum / 0x10000, csum % 0x10000;
    var once := hi + lo;
    assert csum == once + hi * 0xffff;
    if csum > 0 {
      if once < 0x10000 {
        OnesValueUnique(csum, once, hi);
      } else {
        assert Fold(csum) == once + 1;
        OnesValueUnique(csum, once - 0xffff, hi + 1);
      }
    }
  }

  /**
   Deferring the carries to the end (section 2(B) of RFC 1071) gives the
   same sum as wrapping each carry around, for inputs up to 131074 bytes.
   */
  lemma DeferredCarries(d: seq<byte>)
    requires |d| <= MaxExactLength
    ensures Fold(Accumulator(d)) % 0x10000 == OnesSum(d)
  {
    AccumulatorExact(d);
    FoldIsOnesValue(WordSum(d));
    OnesSumIsOnesValue(d);
  }

  lemma Swap16Twice(x: int)
    requires 0 <= x <= 0xffff
    ensures Swap16(Swap16(x)) == x
  {
    var lo, hi := x % 0x100, x / 0x100;
    var y := Swap16(x);
    assert y == lo * 0x100 + hi;
    assert y % 0x100 == hi && y / 0x100 == lo;
  }

  /**
   On a little-endian host the swap on line 76 and `htons` on line 78
   cancel: the result is the complement of the folded sum.
   */
  lemma LittleEndianChecksum(d: seq<byte>)
    ensures ChecksumOf(LittleEndian, d) == Complement16(Fold(Accumulator(d)))
  {
    Swap16Twice(Complement16(Fold(Accumulator(d))));
  }

  /**
   RFC 1071 in full: on a little-endian host, for inputs up to 131074
   bytes, the result is the one's complement of the one's-complement sum.
   */
  lemma LittleEndianIsRfc1071(d: seq<byte>)
    requires |d| <= MaxExactLength
    ensures ChecksumOf(LittleEndian, d) == 0xffff - OnesSum(d)
  {
    LittleEndianChecksum(d);
    DeferredCarries(d);
    ComplementLow16(Fold(Accumulator(d)));
  }

  /**
   On a big-endian host the words line 63 reads are byte-swapped, and the
   swap on line 76 puts the complemented sum back into network order
   (section 2(A) of RFC 1071), for inputs up to 131074 bytes.
   */
  lemma BigEndianIsRfc1071(d: seq<byte>)
    requires |d| <= MaxExactLength
    ensures ChecksumOf(BigEndian, d) == Swap16(0xffff - OnesSum(d))
  {
    var c := Complement16(Fold(Accumulator(d)));
    assert ChecksumOf(BigEndian, d) == Htons(BigEndian, Swap16(c));
    ComplementOfOnesSum(d);
    assert c == 0xffff - OnesSum(d);
  }

  /** For inputs up to 131074 bytes, lines 62-75 give the complement of the one's-complement sum. */
  lemma ComplementOfOnesSum(d: seq<byte>)
    requires |d| <= MaxExactLength
    ensures Complement16(Fold(Accumulator(d))) == 0xffff - OnesSum(d)
  {
    DeferredCarries(d);
    ComplementLow16(Fold(Accumulator(d)));
  }

  /** `~x & 0xffff` of a non-negative `x` is 0xffff minus its low 16 bits. */
  lemma ComplementLow16(x: int)
    requires 0 <= x
    ensures Complement16(x) == 0xffff - x % 0x10000
  {
    assert -x - 1 == (0xffff - x % 0x10000) + (-(x / 0x10000) - 1) * 0x10000;
  }

  /** An empty buffer checksums to 0xffff on either byte order. */
  lemma EmptyChecksum(host: Endian)
    ensures ChecksumOf(host, []) == 0xffff
  {
    assert Accumulator([]) == 0;
    assert Fold(0) == 0;
    assert Complement16(0) == 0xffff;
    assert Swap16(0xffff) == 0xffff;
  }

  /** The eight octets 08 00 00 00 00 01 00 01 checksum to 0xfdf7 on a little-endian host, 0xf7fd on a big-endian one. */
  lemma KnownVector()
    ensures ChecksumOf(LittleEndian, [8, 0, 0, 0, 0, 1, 0, 1]) == 0xfdf7
    ensures ChecksumOf(BigEndian, [8, 0, 0, 0, 0, 1, 0, 1]) == 0xf7fd
  {
    assert WordSum([8, 0, 0, 0, 0, 1, 0, 1]) == 520 by {
      assert [8, 0, 0, 0, 0, 1, 0, 1][2..] == [0, 0, 0, 1, 0, 1];
      assert [0, 0, 0, 1, 0, 1][2..] == [0, 1, 0, 1];
      assert [0, 1, 0, 1][2..] == [0, 1];
      assert [0, 1][2..] == [];
    }
    assert Accumulator([8, 0, 0, 0, 0, 1, 0, 1]) == 520;
    assert Fold(520) == 520;
    assert Complement16(520) == 0xfdf7;
    assert Swap16(0xfdf7) == 0xf7fd;
    assert Swap16(0xf7fd) == 0xfdf7;
  }

  /**
   Whatever the host, the checksum packed with `struct.pack('H', ...)` on
   that host reads back, as the little-endian word line 63 sums, as the
   complement of the folded sum: the swaps on lines 76 and 78 and the
   native packing undo each other.
   */
  lemma PackedChecksumWord(host: Endian, d: seq<byte>)
    ensures UnpackUShort(LittleEndian, PackUShort(host, ChecksumOf(host, d))) == Complement16(Fold(Accumulator(d)))
  {
    var c := Complement16(Fold(Accumulator(d)));
    Swap16Twice(c);
  }

  /** A word at an even offset contributes exactly its own value. */
  lemma WordSumAt(p: seq<byte>, lo: byte, hi: byte, rest: seq<byte>)
    requires |p| % 2 == 0
    ensures WordSum(p + [lo, hi] + rest) == WordSum(p) + Word(lo, hi) + WordSum(rest)
  {
    assert p + [lo, hi] + rest == p + ([lo, hi] + rest);
    WordSumAppend(p, [lo, hi] + rest);
    assert ([lo, hi] + rest)[2..] == rest;
  }

  /** Writing the 16-bit value `field` over a zero word at the even offset `k` adds that word to the sum. */
  lemma WordSumFilled(z: seq<byte>, k: nat, field: seq<byte>)
    requires k % 2 == 0 && k + 2 <= |z| && z[k] == 0 && z[k + 1] == 0 && |field| == 2
    ensures WordSum(z[..k] + field + z[k + 2..]) == WordSum(z) + Word(field[0], field[1])
  {
    assert z == z[..k] + [0, 0] + z[k + 2..];
    WordSumAt(z[..k], 0, 0, z[k + 2..]);
    assert field == [field[0], field[1]];
    WordSumAt(z[..k], field[0], field[1], z[k + 2..]);
  }

  /** Adding the complement of the folded sum to the sum makes the complement of the new folded sum 0. */
  lemma ComplementCancels(s: nat)
    requires s + 0xffff < TwoTo32
    ensures Complement16(Fold(s + Complement16(Fold(s)))) == 0
  {
    var c := Complement16(Fold(s));
    FoldIsOnesValue(s);
    ComplementLow16(Fold(s));
    var v := OnesValue(s);
    assert c == 0xffff - v;
    if s == 0 {
      OnesValueUnique(s + c, 0xffff, 0);
    } else {
      var k := (s - 1) / 0xffff;
      assert s == v + k * 0xffff;
      OnesValueUnique(s + c, 0xffff, k);
    }
    FoldIsOnesValue(s + c);
    ComplementLow16(Fold(s + c));
  }

  /**
   The verification rule of section 1 of RFC 1071: when the checksum of a
   buffer whose 16-bit field at the even offset `k` is zero is packed into
   that field, the checksum of the result is 0. The length bound (that of
   an IPv4 datagram) keeps every sum within 32 bits.
   */
  lemma EmbeddedChecksumVerifies(host: Endian, z: seq<byte>, k: nat)
    requires |z| <= 0xffff
    requires k % 2 == 0 && k + 2 <= |z| && z[k] == 0 && z[k + 1] == 0
    ensures ChecksumOf(host, z[..k] + PackUShort(host, ChecksumOf(host, z)) + z[k + 2..]) == 0
  {
    var filled := z[..k] + PackUShort(host, ChecksumOf(host, z)) + z[k + 2..];
    var sum := WordSum(z);
    AccumulatorFilled(host, z, k);
    assert Accumulator(filled) == sum + Complement16(Fold(sum));
    ComplementCancels(sum);
    var c := Complement16(Fold(Accumulator(filled)));
    assert c == 0;
    assert Swap16(c) == 0;
    assert ChecksumOf(host, filled) == Htons(host, 0);
  }

  /** The sum over the buffer with its checksum filled in is the old sum plus that checksum's word. */
  lemma AccumulatorFilled(host: Endian, z: seq<byte>, k: nat)
    requires |z| <= 0xffff
    requires k % 2 == 0 && k + 2 <= |z| && z[k] == 0 && z[k + 1] == 0
    ensures WordSum(z) + 0xffff < TwoTo32
    ensures Accumulator(z[..k] + PackUShort(host, ChecksumOf(host, z)) + z[k + 2..])
         == WordSum(z) + Complement16(Fold(WordSum(z)))
  {
    var field := PackUShort(host, ChecksumOf(host, z));
    var filled := z[..k] + field + z[k + 2..];
    var sum := WordSum(z);
    var c := Complement16(Fold(Accumulator(z)));
    PackedChecksumWord(host, z);
    assert Word(field[0], field[1]) == c;
    WordSumFilled(z, k, field);
    WordSumBound(z);
    AccumulatorExact(z);
    assert c == Complement16(Fold(sum));
    assert |filled| == |z|;
    AccumulatorExact(filled);
  }
}
