/**
  The compile-time example of tests/test.cpp: a ten-byte view read as a
  bool, a `long long`, a bool and a `long long`, one after the other.
 */
module Example {

  import opened Views
  import opened Errors
  import opened Decoding
  import opened Stream

  /** `C2 CE 05 F5 E1 00 C3 D0 9C 20`: false, uint 32 100000000, true, int 8 -100, then a space. */
  const SAMPLE: seq<byte> := [0xC2, 0xCE, 0x05, 0xF5, 0xE1, 0x00, 0xC3, 0xD0, 0x9C, 0x20]

  /** The four reads, each starting where the one before left the cursor. */
  lemma ChainedReads()
    ensures DecodeBool(SAMPLE, 0) == Ok(false, 1)
    ensures DecodeLongLong(SAMPLE, 1) == Ok(100000000, 6)
    ensures DecodeBool(SAMPLE, 6) == Ok(true, 7)
    ensures DecodeLongLong(SAMPLE, 7) == Ok(-100, 9)
  {
    DecodeFourAt(SAMPLE, 1, 0x05 * 0x100_0000 + 0xF5 * 0x1_0000 + 0xE1 * 0x100 + 0x00);
    DecodeOneAt(SAMPLE, 7);
  }

  /** `example()`: `is >> kek >> f >> kok >> m` over the sample. */
  method RunExample() returns (kek: bool, f: int, kok: bool, m: int)
    ensures (kek != kok) && f == 100000000 && m == -100
    ensures !kek && kok
  {
    var cv := ConstView(SAMPLE);
    var input := new IStream(cv);
    ChainedReads();
    var rb := input.ReadBool();
    kek := rb.value;
    var ri := input.ReadLongLong();
    f := ri.value;
    rb := input.ReadBool();
    kok := rb.value;
    ri := input.ReadLongLong();
    m := ri.value;
  }
}
