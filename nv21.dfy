/**
 * The first half of the frame converter: the three planes of a captured
 * YUV_420_888 frame are copied, one after the other, into a single byte
 * array in NV21 order, luma first, then the V plane, then the U plane.
 */
module Nv21 {

  /** Kotlin's `Byte`. */
  newtype Byte = b: int | -0x80 <= b < 0x80

  /**
   * The buffer of one image plane (`java.nio.ByteBuffer`): the bytes from
   * index 0 up to the buffer's limit, and the position of the next relative
   * read.
   */
  class ByteBuffer {
    const bytes: seq<Byte>
    var position: nat

    ghost predicate Valid()
      reads this
    {
      position <= |bytes|
    }

    constructor (bytes: seq<Byte>)
      ensures Valid() && this.bytes == bytes && position == 0
    {
      this.bytes := bytes;
      position := 0;
    }

    /** `remaining()`: how many bytes lie between the position and the limit. */
    function Remaining(): nat
      reads this
      requires Valid()
    {
      |bytes| - position
    }

    /** The bytes a relative bulk read would deliver, in order. */
    ghost function RemainingBytes(): (r: seq<Byte>)
      reads this
      requires Valid()
      ensures |r| == Remaining()
    {
      bytes[position..]
    }

    /**
     * `get(dst, offset, length)`: copies the next `length` bytes into
     * `dst[offset..offset + length]` and advances the position past them.
     * The platform throws when fewer than `length` bytes remain or when the
     * slice does not fit in `dst`; both are preconditions here.
     */
    method Get(dst: array<Byte>, offset: nat, length: nat)
      requires Valid()
      requires length <= Remaining()
      requires offset + length <= dst.Length
      modifies this, dst
      ensures Valid() && position == old(position) + length
      ensures forall i :: 0 <= i < dst.Length ==>
                dst[i] == if offset <= i < offset + length then bytes[old(position) + (i - offset)] else old(dst[i])
    {
      forall i | offset <= i < offset + length {
        dst[i] := bytes[position + (i - offset)];
      }
      position := position + length;
    }
  }

  /**
   * The byte packing of `toBitmap`: reads the three planes' remaining sizes,
   * allocates one array of their total length and fills it with the whole of
   * the Y plane, then the whole of the V plane, then the whole of the U plane,
   * leaving every plane read to its end.
   */
  method PackNv21(yBuffer: ByteBuffer, uBuffer: ByteBuffer, vBuffer: ByteBuffer) returns (nv21: array<Byte>)
    requires yBuffer.Valid() && uBuffer.Valid() && vBuffer.Valid()
    requires yBuffer != uBuffer && yBuffer != vBuffer && uBuffer != vBuffer
    modifies yBuffer, uBuffer, vBuffer
    ensures fresh(nv21)
    ensures nv21.Length == old(yBuffer.Remaining() + uBuffer.Remaining() + vBuffer.Remaining())
    ensures nv21[..old(yBuffer.Remaining())] == old(yBuffer.RemainingBytes())
    ensures nv21[old(yBuffer.Remaining())..old(yBuffer.Remaining() + vBuffer.Remaining())]
            == old(vBuffer.RemainingBytes())
    ensures nv21[old(yBuffer.Remaining() + vBuffer.Remaining())..] == old(uBuffer.RemainingBytes())
    ensures yBuffer.Valid() && uBuffer.Valid() && vBuffer.Valid()
    ensures yBuffer.Remaining() == 0 && uBuffer.Remaining() == 0 && vBuffer.Remaining() == 0
  {
    var ySize := yBuffer.Remaining();
    var uSize := uBuffer.Remaining();
    var vSize := vBuffer.Remaining();

    nv21 := new Byte[ySize + uSize + vSize];

    yBuffer.Get(nv21, 0, ySize);
    vBuffer.Get(nv21, ySize, vSize);
    uBuffer.Get(nv21, ySize + vSize, uSize);
  }
}
