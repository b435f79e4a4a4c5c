/**
  The `long long` read as msgpack evidently intends it, beside the read as
  written in `Decoding`.  Two things differ:

  - the bounds check before a `k`-byte payload counts from the first payload
    byte, not from the tag, so no read ever leaves the view;
  - `0xD1` (int 16) is sign-extended, as `0xD0` (int 8) already is.

  Everything else (tags, widths, `0xCF` read as a signed pattern, the errors
  for a missing tag and an unknown tag) is the same.
 */
module Corrected {

  import opened Views
  import opened Errors
  import opened Endian
  import opened Decoding

  /** A 16-bit pattern read as a signed 16-bit integer. */
  function SignExtend16(u: nat): (v: int)
    requires u < 0x1_0000
    ensures -0x8000 <= v < 0x8000
    ensures v == u || v == u - 0x1_0000
  {
    if u < 0x8000 then u else u - 0x1_0000
  }

  /** The values a tag stands for once `0xD1` is signed. */
  predicate InCheckedRange(tag: byte, v: int)
    requires IsIntTag(tag)
  {
    if tag == INT16 then -0x8000 <= v < 0x8000 else InTagRange(tag, v)
  }

  /** The value of a payload after `tag`, with `0xD1` sign-extended. */
  function CheckedValue(tag: byte, payload: seq<byte>): int
    requires IsIntTag(tag) && |payload| == PayloadWidth(tag)
  {
    BigEndianBound(payload);
    Pow256Widths();
    if tag == INT16 then SignExtend16(BigEndian(payload)) else IntValue(tag, payload)
  }

  /**
    The corrected `operator>>(long long &)`: the payload's `k` bytes are
    checked for from the byte after the tag.
   */
  function DecodeLongLongChecked(bytes: seq<byte>, pos: nat): (r: Outcome<int>)
    requires pos <= |bytes|
    ensures !r.Overrun?
    ensures r.Ok? ==> pos < |bytes| && IsIntTag(bytes[pos]) && r.next == pos + 1 + PayloadWidth(bytes[pos]) <= |bytes|
  {
    match EndCheck(bytes, pos, 1)
    case Some(e) => Thrown(e)
    case None =>
      var tag := bytes[pos];
      if !IsIntTag(tag) then Thrown(TypeError(tag))
      else
        var w := PayloadWidth(tag);
        match EndCheck(bytes, pos + 1, w)
        case Some(e) => Thrown(e)
        case None => Ok(CheckedValue(tag, bytes[pos + 1 .. pos + 1 + w]), pos + 1 + w)
  }

  /**
    The corrected read never leaves the view: it succeeds with the cursor
    at most at the end, with a value in the tag's range, or it throws; and it
    throws `LengthError` exactly when the payload does not fit after the tag.
   */
  lemma CheckedStaysInView(bytes: seq<byte>, pos: nat)
    requires pos <= |bytes|
    ensures !DecodeLongLongChecked(bytes, pos).Overrun?
    ensures var r := DecodeLongLongChecked(bytes, pos);
            r.Ok? ==>
              && pos < |bytes| && IsIntTag(bytes[pos])
              && r.next == pos + 1 + PayloadWidth(bytes[pos]) <= |bytes|
              && InCheckedRange(bytes[pos], r.value) && InLongLong(r.value)
    ensures pos < |bytes| && IsIntTag(bytes[pos]) ==>
              (DecodeLongLongChecked(bytes, pos).Thrown? <==> pos + 1 + PayloadWidth(bytes[pos]) > |bytes|)
  {
    if pos < |bytes| && IsIntTag(bytes[pos]) && pos + 1 + PayloadWidth(bytes[pos]) <= |bytes| {
      var tag := bytes[pos];
      var payload := bytes[pos + 1 .. pos + 1 + PayloadWidth(tag)];
      IntValueRange(tag, payload);
      Pow256Widths();
    }
  }

  /**
    Where the read as written succeeds, the corrected read gives the same
    value and cursor, except that an `0xD1` value is sign-extended; where
    the read as written overruns the view, the corrected read throws
    `LengthError` instead; and where the read as written throws, so does the
    corrected one.
   */
  lemma CheckedAgrees(bytes: seq<byte>, pos: nat)
    requires pos <= |bytes|
    ensures var r := DecodeLongLong(bytes, pos);
            r.Ok? && bytes[pos] != INT16 ==> DecodeLongLongChecked(bytes, pos) == r
    ensures var r := DecodeLongLong(bytes, pos);
            r.Ok? && bytes[pos] == INT16 ==>
              && r.value < 0x1_0000
              && DecodeLongLongChecked(bytes, pos) == Ok(SignExtend16(r.value), r.next)
    ensures var r := DecodeLongLong(bytes, pos);
            r.Overrun? ==>
              DecodeLongLongChecked(bytes, pos)
              == Thrown(LengthError(PayloadWidth(bytes[pos]) - 1, PayloadWidth(bytes[pos])))
    ensures DecodeLongLong(bytes, pos).Thrown? ==> DecodeLongLongChecked(bytes, pos).Thrown?
  {
    DecodeLongLongSpec(bytes, pos);
    if DecodeLongLong(bytes, pos).Ok? {
      var tag := bytes[pos];
      var payload := bytes[pos + 1 .. pos + 1 + PayloadWidth(tag)];
      DecodeLongLongOk(bytes, pos);
      if tag == INT16 {
        IntValueRange(tag, payload);
        Pow256Widths();
      }
    }
  }

  /** Every value in a tag's corrected range is read back from its image. */
  lemma CheckedImage(tag: byte, v: int)
    requires IsIntTag(tag) && InCheckedRange(tag, v)
    ensures DecodeLongLongChecked([tag] + Image(tag, v), 0) == Ok(v, 1 + PayloadWidth(tag))
  {
    var w := PayloadWidth(tag);
    var bytes := [tag] + Image(tag, v);
    assert bytes[0] == tag;
    assert bytes[1 .. 1 + w] == Image(tag, v);
    if tag == INT16 {
      Pow256Widths();
      var u := if v < 0 then v + 0x1_0000 else v;
      assert v == (if v < 0 then -1 else 0) * 0x1_0000 + u;
      assert u == v % Pow256(w);
      BigEndianOfBytes(u, w);
      assert BigEndian(Image(tag, v)) == u;
    } else {
      IntValueOfImage(tag, v);
    }
  }

  /** Conversely, the payload a corrected read consumes is the image of the value it gives. */
  lemma CheckedDecodedIsImage(bytes: seq<byte>, pos: nat)
    requires pos <= |bytes| && DecodeLongLongChecked(bytes, pos).Ok?
    ensures bytes[pos + 1 .. DecodeLongLongChecked(bytes, pos).next]
            == Image(bytes[pos], DecodeLongLongChecked(bytes, pos).value)
  {
    var tag := bytes[pos];
    if tag == INT16 {
      var w := PayloadWidth(tag);
      var payload := bytes[pos + 1 .. pos + 1 + w];
      Pow256Widths();
      BigEndianBound(payload);
      BytesOfBigEndian(payload);
      var u := BigEndian(payload);
      var v := SignExtend16(u);
      assert v == (if u < 0x8000 then 0 else -1) * 0x1_0000 + u as int;
      assert u == v % Pow256(w);
    } else {
      CheckedAgrees(bytes, pos);
      DecodedIsImage(bytes, pos);
    }
  }

  /**
    The read as written lets a one-byte payload through when only the tag
    is left: `is_end(1)` passes with the cursor on the tag, and the byte
    after it is read from past the end of the view.  The corrected read throws.
   */
  lemma OneByteShort()
    ensures EndCheck([UINT8], 0, 1).None?
    ensures DecodeLongLong([UINT8], 0) == Overrun(1)
    ensures DecodeLongLongChecked([UINT8], 0) == Thrown(LengthError(0, 1))
  {
  }

  /**
    The read as written gives `0xD1 0xFF 0xFF` (int 16 for -1) as 65535; the
    corrected read gives -1.
   */
  lemma Int16NotSignExtended()
    ensures DecodeLongLong([INT16, 0xFF, 0xFF], 0) == Ok(0xFFFF, 3)
    ensures DecodeLongLongChecked([INT16, 0xFF, 0xFF], 0) == Ok(-1, 3)
  {
    var s := [INT16, 0xFF, 0xFF];
    assert s[1 .. 3] == [0xFF, 0xFF];
    BigEndian2(s[1 .. 3]);
  }
}
