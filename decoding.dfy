/**
  What each `IStream::operator>>` of msgpack.hpp does, as functions of the
  viewed bytes and the cursor position; the `IStream` class is proved to
  behave exactly as these say.
 */
module Decoding {

  import opened Views
  import opened Errors
  import opened Endian

  const NIL: byte := 0xC0
  const FALSE: byte := 0xC2
  const TRUE: byte := 0xC3
  const UINT8: byte := 0xCC
  const UINT16: byte := 0xCD
  const UINT32: byte := 0xCE
  const UINT64: byte := 0xCF
  const INT8: byte := 0xD0
  const INT16: byte := 0xD1

  /** `is_end(n)` with the cursor at `pos`: fewer than `n` bytes are left from the cursor on. */
  function EndCheck(bytes: seq<byte>, pos: nat, n: nat): (r: Option<Error>)
    requires pos <= |bytes|
    ensures r.Some? <==> pos + n > |bytes|
    ensures r.Some? ==> r.value == LengthError(|bytes| - pos, n)
  {
    if pos + n > |bytes| then Some(LengthError(|bytes| - pos, n)) else None
  }

  /** The tags the `long long` read has a case for. */
  predicate IsIntTag(tag: byte) {
    tag == UINT8 || tag == UINT16 || tag == UINT32 || tag == UINT64 || tag == INT8 || tag == INT16
  }

  /** How many payload bytes follow an integer tag. */
  function PayloadWidth(tag: byte): nat
    requires IsIntTag(tag)
  {
    if tag == UINT8 || tag == INT8 then 1
    else if tag == UINT16 || tag == INT16 then 2
    else if tag == UINT32 then 4
    else 8
  }

  /**
    The values a tag's payload stands for in this revision: the unsigned
    range of its width, except that `0xCF` covers a whole `long long` and
    `0xD0` a signed byte (`0xD1` is not sign-extended, so it stays unsigned).
   */
  predicate InTagRange(tag: byte, v: int)
    requires IsIntTag(tag)
  {
    if tag == UINT64 then InLongLong(v)
    else if tag == INT8 then -0x80 <= v < 0x80
    else 0 <= v < Pow256(PayloadWidth(tag))
  }

  /** `static_cast<char>` of a byte, where `char` is signed (as `test.cpp` expects). */
  function SignExtend8(b: byte): (v: int)
    ensures -0x80 <= v < 0x80
    ensures v == b as int || v == b as int - 0x100
  {
    if b < 0x80 then b as int else b as int - 0x100
  }

  /** The `long long` the read builds from the payload that follows `tag`. */
  function IntValue(tag: byte, payload: seq<byte>): int
    requires IsIntTag(tag) && |payload| == PayloadWidth(tag)
  {
    BigEndianBound(payload);
    Pow256Widths();
    if tag == UINT64 then AsLongLong(BigEndian(payload))
    else if tag == INT8 then SignExtend8(payload[0])
    else BigEndian(payload)
  }

  /** Every value the read builds lies in its tag's range, and so in a `long long`. */
  lemma IntValueRange(tag: byte, payload: seq<byte>)
    requires IsIntTag(tag) && |payload| == PayloadWidth(tag)
    ensures InTagRange(tag, IntValue(tag, payload))
    ensures InLongLong(IntValue(tag, payload))
  {
    BigEndianBound(payload);
    Pow256Widths();
  }

  /** The payload that stands for `v` after `tag`: its two's-complement image at the tag's width. */
  function Image(tag: byte, v: int): (s: seq<byte>)
    requires IsIntTag(tag)
    ensures |s| == PayloadWidth(tag)
  {
    BigEndianBytes(v % Pow256(PayloadWidth(tag)), PayloadWidth(tag))
  }

  /** `operator>>(Nil &)` with the cursor at `pos`. */
  function DecodeNil(bytes: seq<byte>, pos: nat): (r: Outcome<Nil>)
    requires pos <= |bytes|
    ensures pos == |bytes| ==> r == Thrown(LengthError(0, 1))
    ensures r.Ok? <==> pos < |bytes| && bytes[pos] == NIL
    ensures r.Ok? ==> r.next == pos + 1
    ensures pos < |bytes| && bytes[pos] != NIL ==> r == Thrown(TypeError(bytes[pos]))
  {
    match EndCheck(bytes, pos, 1)
    case Some(e) => Thrown(e)
    case None =>
      if bytes[pos] == NIL then Ok(Nil, pos + 1) else Thrown(TypeError(bytes[pos]))
  }

  /** `operator>>(bool &)` with the cursor at `pos`. */
  function DecodeBool(bytes: seq<byte>, pos: nat): (r: Outcome<bool>)
    requires pos <= |bytes|
    ensures pos == |bytes| ==> r == Thrown(LengthError(0, 1))
    ensures r.Ok? <==> pos < |bytes| && (bytes[pos] == FALSE || bytes[pos] == TRUE)
    ensures r.Ok? ==> r.next == pos + 1 && (r.value <==> bytes[pos] == TRUE)
    ensures pos < |bytes| && bytes[pos] != FALSE && bytes[pos] != TRUE ==>
              r == Thrown(TypeError(bytes[pos]))
  {
    match EndCheck(bytes, pos, 1)
    case Some(e) => Thrown(e)
    case None =>
      var tag := bytes[pos];
      if tag == FALSE then Ok(false, pos + 1)
      else if tag == TRUE then Ok(true, pos + 1)
      else Thrown(TypeError(tag))
  }

  /**
    `operator>>(long long &)` with the cursor at `pos`.  Before a `k`-byte
    payload the source checks `is_end(k)` with the cursor still on the tag,
    which only vouches for `k` bytes counted from the tag; when exactly that
    many are left, the last payload byte lies one past the view and the
    outcome is `Overrun` at that index.
   */
  function DecodeLongLong(bytes: seq<byte>, pos: nat): (r: Outcome<int>)
    requires pos <= |bytes|
    ensures r.Ok? ==> pos < |bytes| && IsIntTag(bytes[pos]) && r.next == pos + 1 + PayloadWidth(bytes[pos]) <= |bytes|
    ensures r.Overrun? ==> r.index == |bytes|
  {
    match EndCheck(bytes, pos, 1)
    case Some(e) => Thrown(e)
    case None =>
      var tag := bytes[pos];
      if !IsIntTag(tag) then Thrown(TypeError(tag))
      else
        var w := PayloadWidth(tag);
        match EndCheck(bytes, pos, w)
        case Some(e) => Thrown(e)
        case None =>
          if pos + 1 + w > |bytes| then Overrun(pos + w)
          else Ok(IntValue(tag, bytes[pos + 1 .. pos + 1 + w]), pos + 1 + w)
  }

  /**
    What the `long long` read promises: `LengthError(0, 1)` at the end of the
    input, `TypeError` for any tag without a case, `LengthError` when fewer
    than the payload width bytes are left from the tag on, `Overrun` exactly
    when that many are left, and otherwise a value in the tag's range with
    the cursor just past the payload.
   */
  lemma DecodeLongLongSpec(bytes: seq<byte>, pos: nat)
    requires pos <= |bytes|
    ensures var r := DecodeLongLong(bytes, pos);
            pos == |bytes| ==> r == Thrown(LengthError(0, 1))
    ensures var r := DecodeLongLong(bytes, pos);
            pos < |bytes| && !IsIntTag(bytes[pos]) ==> r == Thrown(TypeError(bytes[pos]))
    ensures var r := DecodeLongLong(bytes, pos);
            pos < |bytes| && IsIntTag(bytes[pos]) && pos + PayloadWidth(bytes[pos]) > |bytes| ==>
              r == Thrown(LengthError(|bytes| - pos, PayloadWidth(bytes[pos])))
    ensures var r := DecodeLongLong(bytes, pos);
            r.Ok? ==>
              && pos < |bytes| && IsIntTag(bytes[pos])
              && r.next == pos + 1 + PayloadWidth(bytes[pos]) <= |bytes|
              && InTagRange(bytes[pos], r.value) && InLongLong(r.value)
    ensures var r := DecodeLongLong(bytes, pos);
            r.Overrun? <==> pos < |bytes| && IsIntTag(bytes[pos]) && pos + PayloadWidth(bytes[pos]) == |bytes|
    ensures var r := DecodeLongLong(bytes, pos);
            r.Overrun? ==> r.index == |bytes|
    ensures pos < |bytes| && IsIntTag(bytes[pos]) && pos + 1 + PayloadWidth(bytes[pos]) <= |bytes| ==>
              DecodeLongLong(bytes, pos)
              == Ok(IntValue(bytes[pos], bytes[pos + 1 .. pos + 1 + PayloadWidth(bytes[pos])]),
                    pos + 1 + PayloadWidth(bytes[pos]))
  {
    if pos < |bytes| && IsIntTag(bytes[pos]) && pos + 1 + PayloadWidth(bytes[pos]) <= |bytes| {
      DecodeLongLongOk(bytes, pos);
      IntValueRange(bytes[pos], bytes[pos + 1 .. pos + 1 + PayloadWidth(bytes[pos])]);
    }
  }

  /** `DecodeLongLong` when the payload does not fit behind the tag, spelled out. */
  lemma DecodeLongLongShort(bytes: seq<byte>, pos: nat)
    requires pos < |bytes| && IsIntTag(bytes[pos])
    requires pos + PayloadWidth(bytes[pos]) > |bytes|
    ensures DecodeLongLong(bytes, pos) == Thrown(LengthError(|bytes| - pos, PayloadWidth(bytes[pos])))
  {
  }

  /** `DecodeLongLong` when the last payload byte lies one past the view, spelled out. */
  lemma DecodeLongLongOverrun(bytes: seq<byte>, pos: nat)
    requires pos < |bytes| && IsIntTag(bytes[pos])
    requires pos + PayloadWidth(bytes[pos]) == |bytes|
    ensures DecodeLongLong(bytes, pos) == Overrun(|bytes|)
  {
  }

  /** The successful case of `DecodeLongLong`, spelled out. */
  lemma DecodeLongLongOk(bytes: seq<byte>, pos: nat)
    requires pos < |bytes| && IsIntTag(bytes[pos])
    requires pos + 1 + PayloadWidth(bytes[pos]) <= |bytes|
    ensures DecodeLongLong(bytes, pos)
            == Ok(IntValue(bytes[pos], bytes[pos + 1 .. pos + 1 + PayloadWidth(bytes[pos])]),
                  pos + 1 + PayloadWidth(bytes[pos]))
  {
  }

  /** A one-byte payload after `0xCC` or `0xD0`, read from the view in place. */
  lemma DecodeOneAt(bytes: seq<byte>, pos: nat)
    requires pos + 2 <= |bytes| && (bytes[pos] == UINT8 || bytes[pos] == INT8)
    ensures DecodeLongLong(bytes, pos)
            == Ok(if bytes[pos] == INT8 then SignExtend8(bytes[pos + 1]) else bytes[pos + 1] as int, pos + 2)
  {
    DecodeLongLongOk(bytes, pos);
    BigEndianOne(bytes[pos + 1 .. pos + 2]);
  }

  /** A two-byte payload after `0xCD` or `0xD1`, read from the view in place. */
  lemma DecodeTwoAt(bytes: seq<byte>, pos: nat, v: int)
    requires pos + 3 <= |bytes| && (bytes[pos] == UINT16 || bytes[pos] == INT16)
    requires v == bytes[pos + 1] as int * 0x100 + bytes[pos + 2] as int
    ensures DecodeLongLong(bytes, pos) == Ok(v, pos + 3)
  {
    DecodeLongLongOk(bytes, pos);
    BigEndian2(bytes[pos + 1 .. pos + 3]);
  }

  /** A four-byte payload after `0xCE`, read from the view in place. */
  lemma DecodeFourAt(bytes: seq<byte>, pos: nat, v: int)
    requires pos + 5 <= |bytes| && bytes[pos] == UINT32
    requires v == bytes[pos + 1] as int * 0x100_0000 + bytes[pos + 2] as int * 0x1_0000
                  + bytes[pos + 3] as int * 0x100 + bytes[pos + 4] as int
    ensures DecodeLongLong(bytes, pos) == Ok(v, pos + 5)
  {
    DecodeLongLongOk(bytes, pos);
    BigEndian4(bytes[pos + 1 .. pos + 5]);
  }

  /** An eight-byte payload after `0xCF`, read from the view in place as a 64-bit pattern. */
  lemma DecodeEightAt(bytes: seq<byte>, pos: nat, u: int)
    requires pos + 9 <= |bytes| && bytes[pos] == UINT64
    requires u == bytes[pos + 1] as int * 0x100_0000_0000_0000 + bytes[pos + 2] as int * 0x1_0000_0000_0000
                  + bytes[pos + 3] as int * 0x100_0000_0000 + bytes[pos + 4] as int * 0x1_0000_0000
                  + bytes[pos + 5] as int * 0x100_0000 + bytes[pos + 6] as int * 0x1_0000
                  + bytes[pos + 7] as int * 0x100 + bytes[pos + 8] as int
    ensures 0 <= u < TWO_64 && DecodeLongLong(bytes, pos) == Ok(AsLongLong(u), pos + 9)
  {
    DecodeLongLongOk(bytes, pos);
    BigEndian8(bytes[pos + 1 .. pos + 9]);
  }

  /**
    A successful `long long` read consumes the tag and its payload: 2 bytes
    for `0xCC` and `0xD0`, 3 for `0xCD` and `0xD1`, 5 for `0xCE`, 9 for `0xCF`.
   */
  lemma LongLongAdvance(bytes: seq<byte>, pos: nat)
    requires pos <= |bytes| && DecodeLongLong(bytes, pos).Ok?
    ensures var tag := bytes[pos];
            DecodeLongLong(bytes, pos).next - pos
            == if tag == UINT8 || tag == INT8 then 2
               else if tag == UINT16 || tag == INT16 then 3
               else if tag == UINT32 then 5
               else 9
  {
    DecodeLongLongSpec(bytes, pos);
  }

  /**
    The integer tags this revision has no case for (positive and negative
    fixints, `0xD2`, `0xD3`) are refused with `TypeError`.
   */
  lemma UnsupportedIntTags(bytes: seq<byte>, pos: nat)
    requires pos < |bytes|
    requires bytes[pos] < 0x80 || bytes[pos] >= 0xE0 || bytes[pos] == 0xD2 || bytes[pos] == 0xD3
    ensures DecodeLongLong(bytes, pos) == Thrown(TypeError(bytes[pos]))
  {
    DecodeLongLongSpec(bytes, pos);
  }

  /**
    `0xCF` followed by eight `0xFF` bytes (uint 64 for 2^64 - 1) reads as -1:
    the 64-bit pattern is taken as signed.
   */
  lemma UInt64AllOnes()
    ensures DecodeLongLong([UINT64, 0xFF, 0xFF, 0xFF, 0xFF, 0xFF, 0xFF, 0xFF, 0xFF], 0) == Ok(-1, 9)
  {
    var bytes: seq<byte> := [UINT64, 0xFF, 0xFF, 0xFF, 0xFF, 0xFF, 0xFF, 0xFF, 0xFF];
    DecodeEightAt(bytes, 0, TWO_64 - 1);
  }

  /**
    Every value in a tag's range is read back from its image: the tag, then
    the value's two's-complement bytes at the tag's width, big-endian.
   */
  lemma DecodeImage(tag: byte, v: int)
    requires IsIntTag(tag) && InTagRange(tag, v)
    ensures DecodeLongLong([tag] + Image(tag, v), 0) == Ok(v, 1 + PayloadWidth(tag))
  {
    var w := PayloadWidth(tag);
    var bytes := [tag] + Image(tag, v);
    assert bytes[0] == tag;
    assert bytes[1 .. 1 + w] == Image(tag, v);
    IntValueOfImage(tag, v);
  }

  /** The value built from a value's image is that value. */
  lemma IntValueOfImage(tag: byte, v: int)
    requires IsIntTag(tag) && InTagRange(tag, v)
    ensures IntValue(tag, Image(tag, v)) == v
  {
    var w := PayloadWidth(tag);
    Pow256Widths();
    var u := ModWidth(tag, v);
    assert Image(tag, v) == BigEndianBytes(u, w);
    BigEndianOfBytes(u, w);
    if tag == INT8 {
      BigEndianOne(Image(tag, v));
    }
  }

  /**
    The residue of an in-range value modulo 256 to the tag's width: the
    value itself, or for the two signed tags a negative value plus that
    power.
   */
  lemma ModWidth(tag: byte, v: int) returns (u: nat)
    requires IsIntTag(tag) && InTagRange(tag, v)
    ensures u == v % Pow256(PayloadWidth(tag)) && u < Pow256(PayloadWidth(tag))
    ensures tag == UINT64 ==> u < TWO_64 && AsLongLong(u) == v
    ensures tag == INT8 ==> u < 0x100 && SignExtend8(u as byte) == v
    ensures tag != UINT64 && tag != INT8 ==> u == v
  {
    Pow256Widths();
    if tag == UINT64 {
      assert Pow256(PayloadWidth(tag)) == TWO_64;
      u := if v < 0 then v + TWO_64 else v;
      assert v == (if v < 0 then -1 else 0) * TWO_64 + u;
    } else if tag == INT8 {
      assert Pow256(PayloadWidth(tag)) == 0x100;
      u := if v < 0 then v + 0x100 else v;
      assert v == (if v < 0 then -1 else 0) * 0x100 + u;
    } else {
      u := v;
    }
  }

  /**
    Conversely, every value the read produces came from its own image: the
    payload consumed is exactly the image of the value at the tag's width.
   */
  lemma DecodedIsImage(bytes: seq<byte>, pos: nat)
    requires pos <= |bytes| && DecodeLongLong(bytes, pos).Ok?
    ensures bytes[pos + 1 .. DecodeLongLong(bytes, pos).next]
            == Image(bytes[pos], DecodeLongLong(bytes, pos).value)
  {
    var tag := bytes[pos];
    var w := PayloadWidth(tag);
    var payload := bytes[pos + 1 .. pos + 1 + w];
    DecodeLongLongOk(bytes, pos);
    var v := IntValue(tag, payload);
    Pow256Widths();
    BigEndianBound(payload);
    BytesOfBigEndian(payload);
    if tag == INT8 {
      BigEndianOne(payload);
    }
    var u := ModWidth(tag, v);
    assert u == BigEndian(payload);
  }

  lemma BigEndianOne(s: seq<byte>)
    requires |s| == 1
    ensures BigEndian(s) == s[0] as int
  {
    assert s[..0] == [];
  }
}
