/** What each typed array writer of UnsafeOutput hands to the bulk copy
    writeBytes(Object from, long offset, int count): the source object's memory as a byte
    sequence (its elements' images, starting at the array's base offset), an offset into
    it and a byte count computed with Java's `<<` on an int. */
module CopyRequests {
  import opened ByteImages

  /** The arguments of one call of the bulk copy. `offset` counts bytes from the start of
      `from`, which stands for the object's memory from its base offset on. */
  datatype Copy = Copy(from: seq<byte>, offset: nat, count: nat) {
    predicate InBounds() {
      offset + count <= |from|
    }

    /** The bytes the call copies, in order. */
    function Bytes(): seq<byte>
      requires InBounds()
    {
      from[offset .. offset + count]
    }
  }

  function Pow2(distance: nat): (r: nat)
    ensures r >= 1
  {
    if distance == 0 then 1 else 2 * Pow2(distance - 1)
  }

  /** Java's `x << distance` on an int: the product by 2^distance, wrapped to 32-bit two's
      complement. It is the plain product exactly when that product fits in an int. */
  function ShiftLeft(x: JavaInt, distance: nat): (r: JavaInt)
    requires distance < 32
    ensures (r - x * Pow2(distance)) % 0x1_0000_0000 == 0
    ensures -0x8000_0000 <= x * Pow2(distance) < 0x8000_0000 ==> r == x * Pow2(distance)
  {
    var p := (x * Pow2(distance)) % 0x1_0000_0000;
    if p < 0x8000_0000 then p else p - 0x1_0000_0000
  }

  /** writeInts: the whole array, `array.length << 2` bytes from its first element. */
  function IntsCopy(order: ByteOrder, elements: seq<JavaInt>): (c: Copy)
    requires |elements| < 0x2000_0000
    ensures c.InBounds() && c.offset == 0 && c.count == 4 * |elements|
    ensures c.Bytes() == IntsImage(order, elements)
  {
    assert Pow2(2) == 4;
    Copy(IntsImage(order, elements), 0, ShiftLeft(|elements|, 2))
  }

  /** writeLongs: the whole array, `array.length << 3` bytes from its first element. */
  function LongsCopy(order: ByteOrder, elements: seq<JavaLong>): (c: Copy)
    requires |elements| < 0x1000_0000
    ensures c.InBounds() && c.offset == 0 && c.count == 8 * |elements|
    ensures c.Bytes() == LongsImage(order, elements)
  {
    assert Pow2(3) == 8;
    Copy(LongsImage(order, elements), 0, ShiftLeft(|elements|, 3))
  }

  /** writeFloats: the whole array, `array.length << 2` bytes from its first element. */
  function FloatsCopy(order: ByteOrder, elements: seq<FloatBits>): (c: Copy)
    requires |elements| < 0x2000_0000
    ensures c.InBounds() && c.offset == 0 && c.count == 4 * |elements|
    ensures c.Bytes() == FloatsImage(order, elements)
  {
    assert Pow2(2) == 4;
    Copy(FloatsImage(order, elements), 0, ShiftLeft(|elements|, 2))
  }

  /** writeDoubles: the whole array, `array.length << 3` bytes from its first element. */
  function DoublesCopy(order: ByteOrder, elements: seq<DoubleBits>): (c: Copy)
    requires |elements| < 0x1000_0000
    ensures c.InBounds() && c.offset == 0 && c.count == 8 * |elements|
    ensures c.Bytes() == DoublesImage(order, elements)
  {
    assert Pow2(3) == 8;
    Copy(DoublesImage(order, elements), 0, ShiftLeft(|elements|, 3))
  }

  /** writeShorts: the whole array, `array.length << 1` bytes from its first element. */
  function ShortsCopy(order: ByteOrder, elements: seq<JavaShort>): (c: Copy)
    requires |elements| < 0x4000_0000
    ensures c.InBounds() && c.offset == 0 && c.count == 2 * |elements|
    ensures c.Bytes() == ShortsImage(order, elements)
  {
    assert Pow2(1) == 2;
    Copy(ShortsImage(order, elements), 0, ShiftLeft(|elements|, 1))
  }

  /** writeChars: the whole array, `array.length << 1` bytes from its first element. */
  function CharsCopy(order: ByteOrder, elements: seq<JavaChar>): (c: Copy)
    requires |elements| < 0x4000_0000
    ensures c.InBounds() && c.offset == 0 && c.count == 2 * |elements|
    ensures c.Bytes() == CharsImage(order, elements)
  {
    assert Pow2(1) == 2;
    Copy(CharsImage(order, elements), 0, ShiftLeft(|elements|, 1))
  }

  /** writeBooleans(array, offset, count) as written: it ignores `offset` and `count` and asks
      for `array.length << 1` bytes from the first element. A boolean[] holds one byte per
      element, so the second half of the copy reads `adjacent`, the memory that follows the
      array's elements. */
  function BooleansCopyAsWritten(elements: seq<bool>, offset: int, count: int, adjacent: seq<byte>): (c: Copy)
    requires |elements| < 0x4000_0000 && |elements| <= |adjacent|
    ensures c.InBounds() && c.offset == 0 && c.count == 2 * |elements|
    ensures c.Bytes() == BooleansImage(elements) + adjacent[.. |elements|]
  {
    assert Pow2(1) == 2;
    var from := BooleansImage(elements) + adjacent;
    assert from[0 .. 2 * |elements|] == BooleansImage(elements) + adjacent[.. |elements|];
    Copy(from, 0, ShiftLeft(|elements|, 1))
  }

  /** writeBooleans(array, offset, count) as evidently intended: `count` bytes from element
      `offset`, one byte per boolean, as writeBoolean stores each of them. */
  function BooleansCopy(elements: seq<bool>, offset: nat, count: nat): (c: Copy)
    requires offset + count <= |elements|
    ensures c.InBounds() && c.count == count
    ensures c.Bytes() == BooleansImage(elements[offset .. offset + count])
  {
    BooleansImageSlice(elements, offset, count);
    Copy(BooleansImage(elements), offset, count)
  }

  /** For `[false, true]` with offset 1 and count 1, writeBooleans as written copies four bytes,
      the array's two and two from beyond it, where one byte, that of `true`, is meant. */
  lemma BooleansAsWrittenOverreads(adjacent: seq<byte>)
    requires |adjacent| >= 2
    ensures BooleansCopyAsWritten([false, true], 1, 1, adjacent).Bytes() == [0, 1] + adjacent[.. 2]
    ensures BooleansCopy([false, true], 1, 1).Bytes() == [1]
  {
    assert BooleansImage([false, true]) == [0, 1] by {
      assert [BooleansImage([false, true])[0]] == BooleanImage(false);
      assert [BooleansImage([false, true])[1]] == BooleanImage(true);
    }
    assert [false, true][1 .. 2] == [true];
    assert [BooleansImage([true])[0]] == BooleanImage(true);
  }
}
