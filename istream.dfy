/**
  `IStream` (msgpack.hpp:67-153): a cursor over a `ConstView`.  The source
  keeps the cursor as a pointer into the view; here it is the offset `pos`
  from the start of the view.  Every read is proved to do exactly what the
  matching function of `Decoding` says.
 */
module Stream {

  import opened Views
  import opened Errors
  import opened Endian
  import opened Decoding

  class IStream {
    const data: ConstView
    /** `current_position - data.data` */
    var pos: nat

    ghost predicate Valid()
      reads this
    {
      pos <= data.Size()
    }

    /** A new stream starts at the first byte of the view. */
    constructor (cv: ConstView)
      ensures Valid() && data == cv && pos == 0
    {
      data := cv;
      pos := 0;
    }

    /** `is_end(n)`: a `LengthError` exactly when fewer than `n` bytes are left from the cursor on. */
    function IsEnd(n: nat): (r: Option<Error>)
      reads this
      requires Valid()
      ensures r.Some? <==> pos + n > data.Size()
      ensures r.Some? ==> r.value == LengthError(data.Size() - pos, n)
    {
      EndCheck(data.bytes, pos, n)
    }

    /** `*++current_position`: step onto the next byte and read it. */
    method NextByte() returns (b: byte)
      requires Valid() && pos + 1 < data.Size()
      modifies this
      ensures Valid() && pos == old(pos) + 1 && b == data.bytes[pos]
    {
      pos := pos + 1;
      b := data.bytes[pos];
    }

    /** `operator>>(Nil &)` */
    method ReadNil() returns (r: Outcome<Nil>)
      requires Valid()
      modifies this
      ensures Valid()
      ensures r == DecodeNil(data.bytes, old(pos))
      ensures pos == if r.Ok? then r.next else old(pos)
    {
      var e := IsEnd(1);
      if e.Some? {
        return Thrown(e.value);
      }
      var tag := data.bytes[pos];
      if tag != NIL {
        return Thrown(TypeError(tag));
      }
      pos := pos + 1;
      return Ok(Nil, pos);
    }

    /** `operator>>(bool &)` */
    method ReadBool() returns (r: Outcome<bool>)
      requires Valid()
      modifies this
      ensures Valid()
      ensures r == DecodeBool(data.bytes, old(pos))
      ensures pos == if r.Ok? then r.next else old(pos)
    {
      var e := IsEnd(1);
      if e.Some? {
        return Thrown(e.value);
      }
      var tag := data.bytes[pos];
      var b: bool;
      if tag == FALSE {
        b := false;
      } else if tag == TRUE {
        b := true;
      } else {
        return Thrown(TypeError(tag));
      }
      pos := pos + 1;
      return Ok(b, pos);
    }

    /**
      `operator>>(long long &)`.  The value is built as the source builds it,
      one shifted byte added at a time, in the branch for the tag; only the
      last payload byte can lie outside the view.  The read stops there with
      `Overrun`, after `++current_position` has put the cursor at the end of
      the view and before that byte is dereferenced.
     */
    method ReadLongLong() returns (r: Outcome<int>)
      requires Valid()
      modifies this
      ensures Valid()
      ensures r == DecodeLongLong(data.bytes, old(pos))
      ensures pos == AfterRead(r, old(pos))
    {
      var e := IsEnd(1);
      if e.Some? {
        return Thrown(e.value);
      }
      var tag := data.bytes[pos];
      if tag == UINT8 {
        r := ReadUInt8();
      } else if tag == UINT16 || tag == INT16 {
        r := Read16();
      } else if tag == UINT32 {
        r := ReadUInt32();
      } else if tag == UINT64 {
        r := ReadUInt64();
      } else if tag == INT8 {
        r := ReadInt8();
      } else {
        r := Thrown(TypeError(tag));
      }
    }

    /** The `0xCC` branch: one unsigned byte. */
    method ReadUInt8() returns (r: Outcome<int>)
      requires Valid() && pos < data.Size() && data.bytes[pos] == UINT8
      modifies this
      ensures Valid()
      ensures r == DecodeLongLong(data.bytes, old(pos))
      ensures pos == AfterRead(r, old(pos))
    {
      var e := IsEnd(1);
      assert e.None?;  // repeats the check the dispatch made; it cannot throw
      if pos + 1 == data.Size() {
        DecodeLongLongOverrun(data.bytes, pos);
        pos := pos + 1;  // `++current_position` reaches the end; `*` would read past it
        return Overrun(pos);
      }
      DecodeOneAt(data.bytes, pos);
      var b := NextByte();
      var i := b as int;
      pos := pos + 1;
      return Ok(i, pos);
    }

    /**
      The `0xCD` and `0xD1` branches, which are the same code: two bytes,
      big-endian, without sign extension.
     */
    method Read16() returns (r: Outcome<int>)
      requires Valid() && pos < data.Size() && (data.bytes[pos] == UINT16 || data.bytes[pos] == INT16)
      modifies this
      ensures Valid()
      ensures r == DecodeLongLong(data.bytes, old(pos))
      ensures pos == AfterRead(r, old(pos))
    {
      var e := IsEnd(2);
      if e.Some? {
        DecodeLongLongShort(data.bytes, pos);
        return Thrown(e.value);
      }
      ghost var start := pos;
      var b := NextByte();
      var i := b as int * 0x100;
      if pos + 1 == data.Size() {
        DecodeLongLongOverrun(data.bytes, start);
        pos := pos + 1;  // `++current_position` reaches the end; `*` would read past it
        return Overrun(pos);
      }
      b := NextByte();
      i := i + b as int;
      DecodeTwoAt(data.bytes, start, i);
      pos := pos + 1;
      return Ok(i, pos);
    }

    /** The `0xCE` branch: four bytes, big-endian. */
    method ReadUInt32() returns (r: Outcome<int>)
      requires Valid() && pos < data.Size() && data.bytes[pos] == UINT32
      modifies this
      ensures Valid()
      ensures r == DecodeLongLong(data.bytes, old(pos))
      ensures pos == AfterRead(r, old(pos))
    {
      var e := IsEnd(4);
      if e.Some? {
        DecodeLongLongShort(data.bytes, pos);
        return Thrown(e.value);
      }
      ghost var start := pos;
      var b := NextByte();
      var i := b as int * 0x100_0000;
      b := NextByte();
      i := i + b as int * 0x1_0000;
      b := NextByte();
      i := i + b as int * 0x100;
      if pos + 1 == data.Size() {
        DecodeLongLongOverrun(data.bytes, start);
        pos := pos + 1;  // `++current_position` reaches the end; `*` would read past it
        return Overrun(pos);
      }
      b := NextByte();
      i := i + b as int;
      DecodeFourAt(data.bytes, start, i);
      pos := pos + 1;
      return Ok(i, pos);
    }

    /**
      The `0xCF` branch: eight bytes, big-endian.  Each `i +=` is done in
      64-bit unsigned arithmetic and stored back into the `long long`, so `i`
      is tracked here as the 64-bit pattern `u` it holds, and its value is
      that pattern read as signed (`Endian.AccumulateEight` shows this equals
      storing every partial sum).  The shifted bytes occupy distinct bits, so
      no addition carries out of the 64 bits.
     */
    method ReadUInt64() returns (r: Outcome<int>)
      requires Valid() && pos < data.Size() && data.bytes[pos] == UINT64
      modifies this
      ensures Valid()
      ensures r == DecodeLongLong(data.bytes, old(pos))
      ensures pos == AfterRead(r, old(pos))
    {
      var e := IsEnd(8);
      if e.Some? {
        DecodeLongLongShort(data.bytes, pos);
        return Thrown(e.value);
      }
      ghost var start := pos;
      var b := NextByte();
      var u: nat := b as int * 0x100_0000_0000_0000;
      b := NextByte();
      u := u + b as int * 0x1_0000_0000_0000;
      // the partial sums, stated against the view every two bytes
      assert u == data.bytes[start + 1] as int * 0x100_0000_0000_0000 + data.bytes[start + 2] as int * 0x1_0000_0000_0000;
      b := NextByte();
      u := u + b as int * 0x100_0000_0000;
      b := NextByte();
      u := u + b as int * 0x1_0000_0000;
      assert u == data.bytes[start + 1] as int * 0x100_0000_0000_0000 + data.bytes[start + 2] as int * 0x1_0000_0000_0000
                  + data.bytes[start + 3] as int * 0x100_0000_0000 + data.bytes[start + 4] as int * 0x1_0000_0000;
      b := NextByte();
      u := u + b as int * 0x100_0000;
      b := NextByte();
      u := u + b as int * 0x1_0000;
      assert u == data.bytes[start + 1] as int * 0x100_0000_0000_0000 + data.bytes[start + 2] as int * 0x1_0000_0000_0000
                  + data.bytes[start + 3] as int * 0x100_0000_0000 + data.bytes[start + 4] as int * 0x1_0000_0000
                  + data.bytes[start + 5] as int * 0x100_0000 + data.bytes[start + 6] as int * 0x1_0000;
      b := NextByte();
      u := u + b as int * 0x100;
      if pos + 1 == data.Size() {
        DecodeLongLongOverrun(data.bytes, start);
        pos := pos + 1;  // `++current_position` reaches the end; `*` would read past it
        return Overrun(pos);
      }
      b := NextByte();
      u := u + b as int;
      DecodeEightAt(data.bytes, start, u);
      var i := AsLongLong(u);
      pos := pos + 1;
      return Ok(i, pos);
    }

    /** The `0xD0` branch: one byte, sign-extended through `char`. */
    method ReadInt8() returns (r: Outcome<int>)
      requires Valid() && pos < data.Size() && data.bytes[pos] == INT8
      modifies this
      ensures Valid()
      ensures r == DecodeLongLong(data.bytes, old(pos))
      ensures pos == AfterRead(r, old(pos))
    {
      var e := IsEnd(1);
      assert e.None?;  // repeats the check the dispatch made; it cannot throw
      if pos + 1 == data.Size() {
        DecodeLongLongOverrun(data.bytes, pos);
        pos := pos + 1;  // `++current_position` reaches the end; `*` would read past it
        return Overrun(pos);
      }
      DecodeOneAt(data.bytes, pos);
      var b := NextByte();
      var i := SignExtend8(b);
      pos := pos + 1;
      return Ok(i, pos);
    }
  }

  /**
    Where a read leaves the cursor: past what it consumed on success, where
    it was on a throw, and on the byte it would read next when that byte lies
    past the end of the view.
   */
  function AfterRead<T>(r: Outcome<T>, start: nat): nat {
    match r
    case Ok(_, next) => next
    case Thrown(_) => start
    case Overrun(index) => index
  }
}
