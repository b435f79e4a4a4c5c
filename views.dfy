/**
  The two non-owning windows over caller memory (msgpack.hpp:43-63).

  A `MutableView` is a pointer and a size over writable memory, modelled as
  an array and the number of bytes of it the view covers.  A `ConstView` is a
  pointer and a size over read-only memory; since nothing ever writes through
  it, it is modelled by the bytes it covers.
 */
module Views {

  newtype byte = b: int | 0 <= b < 0x100

  /** The `Nil` tag class (msgpack.hpp:65): a read of it produces no data. */
  datatype Nil = Nil

  /** `ConstView`: the read-only window the decoder walks over. */
  datatype ConstView = ConstView(bytes: seq<byte>) {
    /** The `size` field: how many bytes the window covers. */
    function Size(): nat {
      |bytes|
    }
  }

  /**
    `ConstView(const char *, size_t)`: a window over the first `size` bytes of
    the caller's memory; whatever lies beyond them stays out of view.
   */
  function ViewOf(memory: seq<byte>, size: nat): (cv: ConstView)
    requires size <= |memory|
    ensures cv.Size() == size
    ensures forall i :: 0 <= i < size ==> cv.bytes[i] == memory[i]
  {
    ConstView(memory[..size])
  }

  /** `MutableView`: a writable window, `data` with its first `size` bytes in view. */
  class MutableView {
    var data: array<byte>
    var size: nat

    ghost predicate Valid()
      reads this
    {
      size <= data.Length
    }

    /** `MutableView(char *, size_t)`: the caller vouches for `size` bytes at `data`. */
    constructor (data: array<byte>, size: nat)
      requires size <= data.Length
      ensures Valid() && this.data == data && this.size == size
    {
      this.data := data;
      this.size := size;
    }

    /** `MutableView(char (&)[N])`: the whole array is in view. */
    constructor OfArray(data: array<byte>)
      ensures Valid() && this.data == data && this.size == data.Length
    {
      this.data := data;
      this.size := data.Length;
    }
  }

  /**
    `ConstView(const MutableView &)`: a read-only window over the same bytes,
    taken at the moment of the conversion.
   */
  function ConstViewOf(mv: MutableView): (cv: ConstView)
    reads mv, mv.data
    requires mv.Valid()
    ensures cv.Size() == mv.size
    ensures forall i :: 0 <= i < mv.size ==> cv.bytes[i] == mv.data[i]
  {
    ConstView(mv.data[..mv.size])
  }
}
