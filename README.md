# msgpack-cpp decoder, modelled in Dafny

This project models the decoding half of the early `msgpack.hpp` header. It
covers the two non-owning byte windows (`MutableView` and `ConstView`), the
two exceptions (`TypeError` and `LengthError`), and `IStream`. An `IStream`
is a cursor over a `ConstView`. It reads MessagePack values one after the
other with `operator>>`: `Nil` (tag `0xC0`), `bool` (tags `0xC2` and
`0xC3`), and `long long` (tags `0xCC`–`0xCF` and `0xD0`–`0xD1`, big-endian
payloads).

Layout:

- `views.dfy` (`Views`): the byte type, `ConstView` as the bytes it
  covers, `MutableView` as a class over an array with a `size`, and the
  `Nil` tag class.
- `errors.dfy` (`Errors`): the two exceptions of msgpack.hpp:7-41 as the
  datatype `Error`, with their payload fields, and `Outcome`, the result of
  one read. A read either succeeds with a value and the cursor after it, or
  throws, or overruns. `Overrun` is a read of a byte the view does not
  cover. That read is undefined only if the byte also lies outside the
  caller's buffer. The model stops there.
- `endian.dfy` (`Endian`): big-endian numbers and their bytes, the
  `long long` range, and the 64-bit wrap-around of the `0xCF` branch.
- `decoding.dfy` (`Decoding`): each `operator>>` as a function of the
  bytes and the cursor, with its properties.
- `istream.dfy` (`Stream`): the `IStream` class. Its cursor is a mutable
  field. Each read follows the source statement by statement and is proved
  to equal the matching `Decoding` function.
- `corrected.dfy` (`Corrected`): the `long long` read with the two faults
  under "## Findings" fixed, and how it relates to the read as written.
- `example.dfy` (`Example`): the compile-time example in `tests/test.cpp`.

The `IStream` class keeps the source's behaviour, including its two faults,
because it models the code as written. The corrected read sits beside it as
a function with its own proofs.

## Model

| member | source | states |
|---|---|---|
| Views.MutableView.constructor | msgpack.hpp:48 | the view holds the given memory and covers `size` bytes of it |
| Views.MutableView.OfArray | msgpack.hpp:50-52 | a view made from a whole array covers every element of it |
| Views.ViewOf | msgpack.hpp:55-60 | a `ConstView` made from a pointer and a size covers exactly the first `size` bytes of the caller's memory |
| Views.ConstViewOf | msgpack.hpp:62 | the read-only view has the mutable view's size and the same bytes at every index |
| Stream.IStream.constructor | msgpack.hpp:77 | a new stream reads the given view with its cursor on the first byte |
| Decoding.EndCheck | msgpack.hpp:71-74 | `LengthError(size - pos, n)` exactly when pos + n > size, and nothing otherwise |
| Stream.IStream.IsEnd | msgpack.hpp:71-74 | `LengthError(size - cursor, n)` exactly when cursor + n > size, and nothing otherwise; it changes nothing |
| Stream.IStream.NextByte | msgpack.hpp:111 | `*++current_position`: the cursor moves one byte on and the byte under it is returned |
| Stream.IStream.ReadNil | msgpack.hpp:79-89 | the read's outcome is `DecodeNil` at the old cursor; the cursor moves past the tag on success and stays put on a throw |
| Stream.IStream.ReadBool | msgpack.hpp:91-105 | the outcome is `DecodeBool` at the old cursor; the cursor moves as for `ReadNil` |
| Stream.IStream.ReadLongLong | msgpack.hpp:107-152 | the outcome is `DecodeLongLong` at the old cursor; on success the cursor is past the payload, on a throw it is unchanged, and on an overrun it is at the end of the view, on the byte the read would dereference |
| Stream.IStream.ReadUInt8 | msgpack.hpp:110-113 | the `0xCC` branch gives `DecodeLongLong`'s outcome and cursor |
| Stream.IStream.Read16 | msgpack.hpp:114-118 | the `0xCD` branch, which the `0xD1` branch at msgpack.hpp:142-146 repeats, gives `DecodeLongLong`'s outcome and cursor |
| Stream.IStream.ReadUInt32 | msgpack.hpp:119-125 | the `0xCE` branch gives `DecodeLongLong`'s outcome and cursor |
| Stream.IStream.ReadUInt64 | msgpack.hpp:126-137 | the `0xCF` branch gives `DecodeLongLong`'s outcome and cursor; the 64-bit sum is read as signed |
| Stream.IStream.ReadInt8 | msgpack.hpp:138-141 | the `0xD0` branch gives `DecodeLongLong`'s outcome and cursor |
| Decoding.DecodeNil | msgpack.hpp:79-89 | `LengthError(0, 1)` at the end of the input; success exactly when the tag is `0xC0`, consuming one byte; otherwise `TypeError` carrying the tag |
| Decoding.DecodeBool | msgpack.hpp:91-105 | `LengthError(0, 1)` at the end of the input; success exactly for `0xC2` and `0xC3`, giving true exactly for `0xC3` and consuming one byte; otherwise `TypeError` carrying the tag |
| Decoding.DecodeLongLong | msgpack.hpp:107-152 | the read as written: success only for an integer tag, with the cursor at tag + 1 + payload width and within the view; an overrun only at the index just past the view |
| Decoding.DecodeLongLongSpec | msgpack.hpp:107-152 | `LengthError(0, 1)` at the end; `TypeError` for a tag without a case; `LengthError(left, k)` when fewer than k bytes are left from the tag; an overrun exactly when k are left; otherwise a value in the tag's range with the cursor at tag + 1 + k, and an integer tag with k + 1 bytes left always succeeds with the value built from those bytes |
| Decoding.IntValueRange | msgpack.hpp:110-146 | a built value lies in its tag's range: unsigned at the payload width, a signed byte for `0xD0`, the whole `long long` for `0xCF` |
| Decoding.SignExtend8 | msgpack.hpp:140 | `static_cast<char>` of a byte lies in [-128, 128) and differs from the byte by 0 or 256 |
| Decoding.DecodeOneAt | msgpack.hpp:110-113 | `0xCC x` gives `x`, and `0xD0 x` gives `x` sign-extended; either way the cursor moves by 2 |
| Decoding.DecodeTwoAt | msgpack.hpp:114-118 | `0xCD` or `0xD1` followed by `a b` gives `a * 256 + b` with no sign extension; the cursor moves by 3 |
| Decoding.DecodeFourAt | msgpack.hpp:119-125 | `0xCE` and four bytes gives their shifted sum; the cursor moves by 5 |
| Decoding.DecodeEightAt | msgpack.hpp:126-137 | `0xCF` and eight bytes gives their shifted sum (below 2^64) read as a signed 64-bit pattern; the cursor moves by 9 |
| Decoding.LongLongAdvance | msgpack.hpp:107-150 | a successful `long long` read consumes 2 bytes for `0xCC`/`0xD0`, 3 for `0xCD`/`0xD1`, 5 for `0xCE` and 9 for `0xCF` |
| Decoding.UnsupportedIntTags | msgpack.hpp:147-148 | positive and negative fixints, `0xD2` and `0xD3` are refused with `TypeError` carrying the tag |
| Decoding.UInt64AllOnes | msgpack.hpp:126-137 | `0xCF` followed by eight `0xFF` bytes reads as -1 |
| Decoding.DecodeImage | msgpack.hpp:107-152 | every value in a tag's range is read back from the tag followed by the value's big-endian two's-complement bytes |
| Decoding.DecodedIsImage | msgpack.hpp:107-152 | the payload a successful read consumes is exactly the image of the value it gives |
| Decoding.IntValueOfImage | msgpack.hpp:110-146 | the value built from an in-range value's image is that value |
| Decoding.ModWidth | msgpack.hpp:126-141 | an in-range value modulo the width is the bit pattern the payload holds: the value itself, or for `0xCF` and `0xD0` a pattern that reads back as the value |
| Endian.BigEndianBound | msgpack.hpp:119-125 | k big-endian bytes stand for a number below 256^k |
| Endian.BigEndianOfBytes | msgpack.hpp:119-125 | the big-endian bytes of a number below 256^k read back as that number |
| Endian.BytesOfBigEndian | msgpack.hpp:119-125 | bytes are the big-endian bytes of the number they stand for |
| Endian.BigEndian2 | msgpack.hpp:115-117 | two bytes stand for the first shifted left by 8 plus the second |
| Endian.BigEndian4 | msgpack.hpp:120-124 | four bytes stand for their sum shifted by 24, 16, 8 and 0 |
| Endian.BigEndian8 | msgpack.hpp:127-136 | eight bytes stand for their sum shifted by 56 down to 0, which is below 2^64 |
| Endian.AsLongLong | msgpack.hpp:127-136 | a 64-bit pattern read as signed lies in the `long long` range and differs from the pattern by 0 or 2^64 |
| Endian.Wrap64 | msgpack.hpp:127-136 | storing an unsigned 64-bit result into a `long long` gives a value in the `long long` range |
| Endian.WrapPattern | msgpack.hpp:127-136 | storing a 64-bit pattern into a `long long` reads it as signed |
| Endian.WrapStep | msgpack.hpp:129-136 | one `i += x` on a `long long` that holds a pattern leaves the pattern plus `x`, if that fits in 64 bits |
| Endian.Accumulate64 | msgpack.hpp:128-136 | the `long long` left by the source's `i = ...; i += ...;` statements, each done in 64-bit unsigned arithmetic and stored back, is always in the `long long` range; `AccumulateEight` gives its value |
| Endian.AccumulateShifted | msgpack.hpp:127-136 | wrapping after every `i +=` gives the same `long long` as reading the whole sum as signed, while the sum fits in 64 bits |
| Endian.ShiftedEight | msgpack.hpp:127-136 | the eight shifted bytes add up to their big-endian value, below 2^64 |
| Endian.AccumulateEight | msgpack.hpp:126-137 | the `long long` that the eight `i +=` statements leave is the big-endian value of the payload read as signed |
| Corrected.SignExtend16 | msgpack.hpp:142-146 | a 16-bit pattern read as signed lies in [-32768, 32768) and differs from the pattern by 0 or 65536 |
| Corrected.DecodeLongLongChecked | msgpack.hpp:107-152 | the corrected read never overruns; on success the tag is an integer tag and the cursor is at tag + 1 + payload width, within the view |
| Corrected.CheckedStaysInView | msgpack.hpp:107-152 | the corrected read never overruns; on success the cursor is within the view and the value is in the tag's signed range; it throws exactly when the payload does not fit after the tag |
| Corrected.CheckedAgrees | msgpack.hpp:107-152 | the corrected read agrees with the read as written wherever that one succeeds, except that `0xD1` is sign-extended; where the read as written overruns, the corrected one throws `LengthError(k - 1, k)` |
| Corrected.CheckedImage | msgpack.hpp:107-152 | every value in a tag's corrected range, including negative int 16 values, is read back from its image |
| Corrected.CheckedDecodedIsImage | msgpack.hpp:107-152 | the payload a corrected read consumes is the image of the value it gives |
| Corrected.OneByteShort | msgpack.hpp:110-113 | with only `0xCC` left, `is_end(1)` passes and the read as written overruns at index 1; the corrected read throws `LengthError(0, 1)` |
| Corrected.Int16NotSignExtended | msgpack.hpp:142-146 | `0xD1 0xFF 0xFF` reads as 65535 as written and as -1 corrected |
| Example.ChainedReads | tests/test.cpp:7-17 | over `C2 CE 05 F5 E1 00 C3 D0 9C 20`, the reads give false, 100000000, true and -100, each starting where the last ended |
| Example.RunExample | tests/test.cpp:7-21 | `example()` gives `kek` false, `f` 100000000, `kok` true and `m` -100, which is what the `static_assert` and the commented-out check expect |

## Left out

- `perfomance/perf_comp.cpp` and `tests/iotest.cpp` are not part of this model. They use `msgpackcpp.hpp`, a later header with an encoder, strings, binary data, floats and tuples that this revision does not have.
- The `what()` messages and the `std::exception` base class are left out. An error carries only its payload fields (`getType()`, `getActual()`, `getExpected()`).
- `constexpr` evaluation and `static_assert` are left out. `tests/test.cpp` is modelled by stating its expected values as postconditions.
- Pointers become indices. `current_position` is the offset `pos` from the start of the view. `size_t` arithmetic in `is_end` is unbounded, which matches the source for any view that fits in memory.
- The model does not follow a read past the end of the view. At that read, `++current_position` has put the cursor at `size`, and `*` dereferences a byte the view does not cover. When the caller's buffer is longer than the view, as in `tests/test.cpp`, the source reads that byte and finishes the branch with the cursor at `size + 1`; the next `is_end` then computes the bytes left in `size_t`, which wraps around. When the byte lies outside the buffer, the read is undefined. The model stops with `Overrun(size)` and the cursor at `size`.
- A throw becomes a returned `Thrown` outcome, not stack unwinding. Chaining through the returned `*this` becomes consecutive calls on the same stream. The `long long &` target of a read becomes the returned value. On a throw the source leaves the target untouched, and the model does not state this.
- Views.ConstViewOf: the `ConstView` is a snapshot of the bytes at the time of conversion. Later writes through the `MutableView` or the array are not seen through it; in the source both windows share the memory.
- `char` is taken to be signed: `static_cast<char>` in the `0xD0` branch sign-extends, as `tests/test.cpp` expects.
- Stream.IStream.ReadUInt64: this method keeps the running sum as an unsigned 64-bit pattern and converts it to signed once at the end. The source stores each partial sum into the `long long`. Endian.AccumulateEight proves that both give the same value.
- The corrected read under "## Findings" is a function only. The `IStream` class keeps the source's behaviour.

## Findings

| source | as written | input that shows it | evidently intended | confidence | as-written member | corrected member |
|---|---|---|---|---|---|---|
| msgpack.hpp:110-146 | before a k-byte payload, `is_end(k)` is called while the cursor is still on the tag, so it vouches for k bytes counted from the tag; the branch then reads k bytes after the tag | a one-byte view holding `CC`: `is_end(1)` passes, and the byte at index 1, which the view does not cover, is read | check k bytes from the byte after the tag, and throw `LengthError(0, 1)` for this input | not executed; high, the indices follow directly from the code | Corrected.OneByteShort | Corrected.CheckedStaysInView |
| msgpack.hpp:142-146 | the `0xD1` (int 16) branch assembles two bytes as unsigned and does not sign-extend them, unlike `0xD0` | `D1 FF FF` reads as 65535 | -1, the int 16 value of `FF FF` | not executed; medium, since msgpack defines `0xD1` as signed 16-bit | Corrected.Int16NotSignExtended | Corrected.CheckedImage |
