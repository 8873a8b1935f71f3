/** Byte images of Java's primitive values and primitive arrays, as sun.misc.Unsafe lays
    them out in memory: a multi-byte value occupies `width` consecutive bytes in the
    host's native byte order, and an array occupies its elements' images back to back. */
module ByteImages {

  /** One byte of a buffer, as its unsigned value. */
  type byte = b: int | 0 <= b < 256

  /** The host's byte order. Unsafe performs no conversion, so the order is a parameter. */
  datatype ByteOrder = LittleEndian | BigEndian

  /** Java's primitive value ranges. */
  type JavaInt = x: int | -0x8000_0000 <= x < 0x8000_0000
  type JavaLong = x: int | -0x8000_0000_0000_0000 <= x < 0x8000_0000_0000_0000
  type JavaShort = x: int | -0x8000 <= x < 0x8000
  type JavaChar = c: int | 0 <= c < 0x1_0000

  /** The raw IEEE 754 bit pattern of a float or a double, read as an unsigned number;
      the value it denotes plays no part in how it is stored. */
  type FloatBits = b: int | 0 <= b < 0x1_0000_0000
  type DoubleBits = b: int | 0 <= b < 0x1_0000_0000_0000_0000

  function Pow256(width: nat): (r: nat)
    ensures r >= 1
  {
    if width == 0 then 1 else 256 * Pow256(width - 1)
  }

  // ---------------------------------------------------------------------------
  // Unsigned numbers as bytes

  /** The `width` low-order bytes of `n`, least significant first. */
  function LeBytes(n: nat, width: nat): (r: seq<byte>)
    ensures |r| == width
  {
    if width == 0 then [] else [n % 256] + LeBytes(n / 256, width - 1)
  }

  /** The number whose least significant byte comes first in `s`. */
  function LeValue(s: seq<byte>): (n: nat)
    ensures n < Pow256(|s|)
  {
    if s == [] then 0 else s[0] + 256 * LeValue(s[1..])
  }

  lemma {:induction false} LeValueOfBytes(n: nat, width: nat)
    requires n < Pow256(width)
    ensures LeValue(LeBytes(n, width)) == n
  {
    if width > 0 {
      LeValueOfBytes(n / 256, width - 1);
      assert LeBytes(n, width)[1..] == LeBytes(n / 256, width - 1);
    }
  }

  lemma {:induction false} LeBytesOfValue(s: seq<byte>)
    ensures LeBytes(LeValue(s), |s|) == s
  {
    if s != [] {
      LeBytesOfValue(s[1..]);
      var n := LeValue(s);
      assert n % 256 == s[0] && n / 256 == LeValue(s[1..]);
      assert s == [s[0]] + s[1..];
    }
  }

  function Reverse(s: seq<byte>): (r: seq<byte>)
    ensures |r| == |s|
    ensures forall i :: 0 <= i < |s| ==> r[i] == s[|s| - 1 - i]
  {
    if s == [] then [] else Reverse(s[1..]) + [s[0]]
  }

  lemma ReverseReverse(s: seq<byte>)
    ensures Reverse(Reverse(s)) == s
  {
    assert forall i :: 0 <= i < |s| ==> Reverse(Reverse(s))[i] == s[i];
  }

  /** The image of the number `n` in `width` bytes of the given order. */
  function Encode(order: ByteOrder, n: nat, width: nat): (r: seq<byte>)
    requires n < Pow256(width)
    ensures |r| == width
    ensures Decode(order, r) == n
  {
    LeValueOfBytes(n, width);
    match order
    case LittleEndian => LeBytes(n, width)
    case BigEndian => ReverseReverse(LeBytes(n, width)); Reverse(LeBytes(n, width))
  }

  /** The number that the bytes `s` hold in the given order (what a reader of the same order sees). */
  function Decode(order: ByteOrder, s: seq<byte>): (n: nat)
    ensures n < Pow256(|s|)
  {
    match order
    case LittleEndian => LeValue(s)
    case BigEndian => LeValue(Reverse(s))
  }

  /** Every byte pattern is the image of the number it decodes to, so images are injective. */
  lemma EncodeOfDecode(order: ByteOrder, s: seq<byte>)
    ensures Encode(order, Decode(order, s), |s|) == s
  {
    match order
    case LittleEndian =>
      LeBytesOfValue(s);
    case BigEndian =>
      LeBytesOfValue(Reverse(s));
      ReverseReverse(s);
  }

  // ---------------------------------------------------------------------------
  // Two's complement

  /** The first `width`-byte pattern whose top bit is set. */
  function Half(width: nat): (r: nat)
    requires width > 0
    ensures 2 * r == Pow256(width)
  {
    128 * Pow256(width - 1)
  }

  predicate InSignedRange(v: int, width: nat) {
    width > 0 && -(Half(width) as int) <= v < Half(width)
  }

  /** The signed number that the unsigned `width`-byte number `u` stands for. */
  function Signed(u: nat, width: nat): (r: int)
    requires width > 0
    ensures u < Pow256(width) ==> InSignedRange(r, width)
    ensures r == u || r == u - Pow256(width)
  {
    if u < Half(width) then u else u - Pow256(width)
  }

  /** The two's-complement bit pattern of `v` in `width` bytes. */
  function Unsigned(v: int, width: nat): (u: nat)
    requires InSignedRange(v, width)
    ensures u < Pow256(width)
    ensures Signed(u, width) == v
  {
    assert Pow256(width) == 2 * Half(width);
    if v < 0 then v + Pow256(width) else v
  }

  /** The signed number that the bytes `s` stand for in byte order `order`. */
  function DecodeSigned(order: ByteOrder, s: seq<byte>): (r: int)
    requires |s| > 0
    ensures InSignedRange(r, |s|)
  {
    Signed(Decode(order, s), |s|)
  }

  function SignedImage(order: ByteOrder, v: int, width: nat): (r: seq<byte>)
    requires InSignedRange(v, width)
    ensures |r| == width
    ensures DecodeSigned(order, r) == v
  {
    Encode(order, Unsigned(v, width), width)
  }

  // ---------------------------------------------------------------------------
  // Images of single values, as unsafe.putInt, putLong, ... store them

  /** putInt: four bytes that read back as `value`. */
  function IntImage(order: ByteOrder, value: JavaInt): (r: seq<byte>)
    ensures |r| == 4
    ensures DecodeSigned(order, r) == value
  {
    SignedImage(order, value, 4)
  }

  /** putLong: eight bytes that read back as `value`. */
  function LongImage(order: ByteOrder, value: JavaLong): (r: seq<byte>)
    ensures |r| == 8
    ensures DecodeSigned(order, r) == value
  {
    SignedImage(order, value, 8)
  }

  /** putShort of `(short) value`: the cast keeps the low 16 bits, so the two bytes hold
      `value` modulo 2^16, and a value already in the range of a short reads back unchanged. */
  function ShortImage(order: ByteOrder, value: JavaInt): (r: seq<byte>)
    ensures |r| == 2
    ensures Decode(order, r) == value % 0x1_0000
    ensures -0x8000 <= value < 0x8000 ==> DecodeSigned(order, r) == value
  {
    Encode(order, value % 0x1_0000, 2)
  }

  /** putChar: two bytes holding the UTF-16 code unit. */
  function CharImage(order: ByteOrder, value: JavaChar): (r: seq<byte>)
    ensures |r| == 2
    ensures Decode(order, r) == value
  {
    Encode(order, value, 2)
  }

  /** putFloat: the four bytes of the raw bit pattern. */
  function FloatImage(order: ByteOrder, bits: FloatBits): (r: seq<byte>)
    ensures |r| == 4
    ensures Decode(order, r) == bits
  {
    Encode(order, bits, 4)
  }

  /** putDouble: the eight bytes of the raw bit pattern. */
  function DoubleImage(order: ByteOrder, bits: DoubleBits): (r: seq<byte>)
    ensures |r| == 8
    ensures Decode(order, r) == bits
  {
    Encode(order, bits, 8)
  }

  /** putByte of `value ? 1 : 0`. */
  function BooleanImage(value: bool): (r: seq<byte>)
    ensures |r| == 1
    ensures r[0] <= 1 && (r[0] == 1 <==> value)
  {
    [if value then 1 else 0]
  }

  // ---------------------------------------------------------------------------
  // Images of primitive arrays: the elements' images, back to back

  function Flatten(chunks: seq<seq<byte>>): (r: seq<byte>) {
    if chunks == [] then [] else chunks[0] + Flatten(chunks[1..])
  }

  lemma {:induction false} FlattenLength(chunks: seq<seq<byte>>, width: nat)
    requires forall i :: 0 <= i < |chunks| ==> |chunks[i]| == width
    ensures |Flatten(chunks)| == width * |chunks|
  {
    if chunks != [] {
      FlattenLength(chunks[1..], width);
      assert width * |chunks| == width + width * (|chunks| - 1);
    }
  }

  lemma SliceAfterPrefix(a: seq<byte>, b: seq<byte>, k: nat, n: nat)
    requires k + n <= |b|
    ensures (a + b)[|a| + k .. |a| + k + n] == b[k .. k + n]
  {
  }

  /** In a flattening of chunks of one width, chunk `i` starts at `width * i`. */
  lemma {:induction false} FlattenAt(chunks: seq<seq<byte>>, width: nat, i: nat)
    requires forall j :: 0 <= j < |chunks| ==> |chunks[j]| == width
    requires i < |chunks|
    ensures width * i + width <= |Flatten(chunks)|
    ensures Flatten(chunks)[width * i .. width * i + width] == chunks[i]
  {
    FlattenLength(chunks, width);
    var rest := chunks[1..];
    assert Flatten(chunks) == chunks[0] + Flatten(rest);
    if i > 0 {
      FlattenAt(rest, width, i - 1);
      var k := width * (i - 1);
      assert width * i == width + k;
      SliceAfterPrefix(chunks[0], Flatten(rest), k, width);
    }
  }

  lemma FlattenUniform(chunks: seq<seq<byte>>, width: nat)
    requires forall i :: 0 <= i < |chunks| ==> |chunks[i]| == width
    ensures |Flatten(chunks)| == width * |chunks|
    ensures forall i {:trigger chunks[i]} :: 0 <= i < |chunks| ==>
              width * i + width <= |Flatten(chunks)| &&
              Flatten(chunks)[width * i .. width * i + width] == chunks[i]
  {
    FlattenLength(chunks, width);
    forall i | 0 <= i < |chunks|
      ensures width * i + width <= |Flatten(chunks)|
      ensures Flatten(chunks)[width * i .. width * i + width] == chunks[i]
    {
      FlattenAt(chunks, width, i);
    }
  }

  function IntsImage(order: ByteOrder, a: seq<JavaInt>): (r: seq<byte>)
    ensures |r| == 4 * |a|
    ensures forall i :: 0 <= i < |a| ==> r[4 * i .. 4 * i + 4] == IntImage(order, a[i])
  {
    var chunks := seq(|a|, i requires 0 <= i < |a| => IntImage(order, a[i]));
    FlattenUniform(chunks, 4);
    assert forall i :: 0 <= i < |a| ==> chunks[i] == IntImage(order, a[i]);
    Flatten(chunks)
  }

  function LongsImage(order: ByteOrder, a: seq<JavaLong>): (r: seq<byte>)
    ensures |r| == 8 * |a|
    ensures forall i :: 0 <= i < |a| ==> r[8 * i .. 8 * i + 8] == LongImage(order, a[i])
  {
    var chunks := seq(|a|, i requires 0 <= i < |a| => LongImage(order, a[i]));
    FlattenUniform(chunks, 8);
    assert forall i :: 0 <= i < |a| ==> chunks[i] == LongImage(order, a[i]);
    Flatten(chunks)
  }

  function FloatsImage(order: ByteOrder, a: seq<FloatBits>): (r: seq<byte>)
    ensures |r| == 4 * |a|
    ensures forall i :: 0 <= i < |a| ==> r[4 * i .. 4 * i + 4] == FloatImage(order, a[i])
  {
    var chunks := seq(|a|, i requires 0 <= i < |a| => FloatImage(order, a[i]));
    FlattenUniform(chunks, 4);
    assert forall i :: 0 <= i < |a| ==> chunks[i] == FloatImage(order, a[i]);
    Flatten(chunks)
  }

  function DoublesImage(order: ByteOrder, a: seq<DoubleBits>): (r: seq<byte>)
    ensures |r| == 8 * |a|
    ensures forall i :: 0 <= i < |a| ==> r[8 * i .. 8 * i + 8] == DoubleImage(order, a[i])
  {
    var chunks := seq(|a|, i requires 0 <= i < |a| => DoubleImage(order, a[i]));
    FlattenUniform(chunks, 8);
    assert forall i :: 0 <= i < |a| ==> chunks[i] == DoubleImage(order, a[i]);
    Flatten(chunks)
  }

  /** A short[] element is stored as writeShort stores a short. */
  function ShortsImage(order: ByteOrder, a: seq<JavaShort>): (r: seq<byte>)
    ensures |r| == 2 * |a|
    ensures forall i :: 0 <= i < |a| ==> r[2 * i .. 2 * i + 2] == ShortImage(order, a[i])
  {
    var chunks := seq(|a|, i requires 0 <= i < |a| => ShortImage(order, a[i]));
    FlattenUniform(chunks, 2);
    assert forall i :: 0 <= i < |a| ==> chunks[i] == ShortImage(order, a[i]);
    Flatten(chunks)
  }

  function CharsImage(order: ByteOrder, a: seq<JavaChar>): (r: seq<byte>)
    ensures |r| == 2 * |a|
    ensures forall i :: 0 <= i < |a| ==> r[2 * i .. 2 * i + 2] == CharImage(order, a[i])
  {
    var chunks := seq(|a|, i requires 0 <= i < |a| => CharImage(order, a[i]));
    FlattenUniform(chunks, 2);
    assert forall i :: 0 <= i < |a| ==> chunks[i] == CharImage(order, a[i]);
    Flatten(chunks)
  }

  /** A boolean[] holds one byte per element, as writeBoolean stores it. */
  function BooleansImage(a: seq<bool>): (r: seq<byte>)
    ensures |r| == |a|
    ensures forall i :: 0 <= i < |a| ==> [r[i]] == BooleanImage(a[i])
  {
    var chunks := seq(|a|, i requires 0 <= i < |a| => BooleanImage(a[i]));
    FlattenUniform(chunks, 1);
    assert forall i :: 0 <= i < |a| ==> chunks[i] == BooleanImage(a[i]);
    assert forall i :: 0 <= i < |a| ==> Flatten(chunks)[1 * i .. 1 * i + 1] == [Flatten(chunks)[i]];
    Flatten(chunks)
  }

  /** The image of a slice of a boolean[] is the same slice of the array's image. */
  lemma BooleansImageSlice(a: seq<bool>, offset: nat, count: nat)
    requires offset + count <= |a|
    ensures BooleansImage(a)[offset .. offset + count] == BooleansImage(a[offset .. offset + count])
  {
    var s := a[offset .. offset + count];
    forall i | 0 <= i < count
      ensures BooleansImage(a)[offset .. offset + count][i] == BooleansImage(s)[i]
    {
      assert [BooleansImage(a)[offset + i]] == BooleanImage(a[offset + i]);
      assert [BooleansImage(s)[i]] == BooleanImage(s[i]);
    }
  }
}
