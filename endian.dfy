/**
  Big-endian assembly of unsigned integers, and the two's-complement
  reinterpretation a C++ `long long` applies to a 64-bit pattern.
 */
module Endian {

  import opened Views

  const TWO_63: int := 0x8000_0000_0000_0000
  const TWO_64: int := 0x1_0000_0000_0000_0000

  /** The range of a `long long`. */
  predicate InLongLong(v: int) {
    -TWO_63 <= v < TWO_63
  }

  /** 256 to the power `n`: one past the largest unsigned value of `n` bytes. */
  function Pow256(n: nat): (p: nat)
    ensures p >= 1
  {
    if n == 0 then 1 else 256 * Pow256(n - 1)
  }

  lemma Pow256Table()
    ensures Pow256(0) == 1 && Pow256(1) == 0x100 && Pow256(2) == 0x1_0000
    ensures Pow256(3) == 0x100_0000 && Pow256(4) == 0x1_0000_0000
    ensures Pow256(5) == 0x100_0000_0000 && Pow256(6) == 0x1_0000_0000_0000
    ensures Pow256(7) == 0x100_0000_0000_0000 && Pow256(8) == TWO_64
  {
    Pow256Widths();
  }

  lemma Pow256Widths()
    ensures Pow256(1) == 0x100 && Pow256(2) == 0x1_0000
    ensures Pow256(4) == 0x1_0000_0000 && Pow256(8) == TWO_64
  {
    assert Pow256(2) == 0x1_0000;
    assert Pow256(3) == 0x100_0000;
    assert Pow256(4) == 0x1_0000_0000;
    assert Pow256(6) == 0x1_0000_0000_0000;
    assert Pow256(7) == 0x100_0000_0000_0000;
  }

  /** The unsigned value of `s`, most significant byte first. */
  function BigEndian(s: seq<byte>): nat {
    if |s| == 0 then 0 else BigEndian(s[..|s| - 1]) * 256 + s[|s| - 1] as nat
  }

  /** The `w`-byte big-endian image of `v`: the bytes that spell `v`, most significant first. */
  function BigEndianBytes(v: nat, w: nat): (s: seq<byte>)
    ensures |s| == w
  {
    if w == 0 then [] else BigEndianBytes(v / 256, w - 1) + [(v % 256) as byte]
  }

  lemma {:induction false} BigEndianBound(s: seq<byte>)
    ensures BigEndian(s) < Pow256(|s|)
  {
    if |s| > 0 {
      BigEndianBound(s[..|s| - 1]);
    }
  }

  /** Reading the image of any value that fits in `w` bytes gives the value back. */
  lemma {:induction false} BigEndianOfBytes(v: nat, w: nat)
    requires v < Pow256(w)
    ensures BigEndian(BigEndianBytes(v, w)) == v
  {
    if w > 0 {
      var q, r := v / 256, v % 256;
      var p := BigEndianBytes(q, w - 1);
      var s := p + [r as byte];
      assert s == BigEndianBytes(v, w);
      QuotientBound(v, Pow256(w - 1));
      BigEndianOfBytes(q, w - 1);
      assert s[..w - 1] == p;
      assert BigEndian(s) == BigEndian(p) * 256 + r;
    }
  }

  lemma QuotientBound(v: nat, p: nat)
    requires v < 256 * p
    ensures v / 256 < p
  {
  }

  /** Every byte string is the image of the value it spells: the reading loses nothing. */
  lemma {:induction false} BytesOfBigEndian(s: seq<byte>)
    ensures BigEndianBytes(BigEndian(s), |s|) == s
  {
    if |s| > 0 {
      var p := s[..|s| - 1];
      BytesOfBigEndian(p);
      var v := BigEndian(s);
      assert v / 256 == BigEndian(p);
      assert (v % 256) as byte == s[|s| - 1];
      assert s == p + [s[|s| - 1]];
    }
  }

  /** The sum of shifted bytes that a two-byte read builds. */
  lemma BigEndian2(s: seq<byte>)
    requires |s| == 2
    ensures BigEndian(s) == s[0] as int * 0x100 + s[1] as int
  {
    assert s[..1][..0] == [];
    assert BigEndian(s[..1]) == s[0] as int;
  }

  /** The sum of shifted bytes that a four-byte read builds. */
  lemma BigEndian4(s: seq<byte>)
    requires |s| == 4
    ensures BigEndian(s) == s[0] as int * 0x100_0000 + s[1] as int * 0x1_0000
                           + s[2] as int * 0x100 + s[3] as int
  {
    BigEndian2(s[..2]);
    assert s[..3][..2] == s[..2];
    assert s[..4] == s;
  }

  /** The sum of shifted bytes that an eight-byte read builds. */
  lemma BigEndian8(s: seq<byte>)
    requires |s| == 8
    ensures BigEndian(s) < TWO_64
    ensures BigEndian(s) == s[0] as int * 0x100_0000_0000_0000 + s[1] as int * 0x1_0000_0000_0000
                           + s[2] as int * 0x100_0000_0000 + s[3] as int * 0x1_0000_0000
                           + s[4] as int * 0x100_0000 + s[5] as int * 0x1_0000
                           + s[6] as int * 0x100 + s[7] as int
  {
    BigEndian4(s[..4]);
    BigEndianBound(s);
    Pow256Widths();
    assert s[..5][..4] == s[..4];
    assert BigEndian(s[..5]) == BigEndian(s[..4]) * 0x100 + s[4] as int;
    assert s[..6][..5] == s[..5];
    assert BigEndian(s[..6]) == BigEndian(s[..5]) * 0x100 + s[5] as int;
    assert s[..7][..6] == s[..6];
    assert BigEndian(s[..7]) == BigEndian(s[..6]) * 0x100 + s[6] as int;
    assert s[..8][..7] == s[..7];
    assert s[..8] == s;
  }

  /**
    A 64-bit pattern read as a `long long`: patterns from 2^63 up stand for
    negative numbers.
   */
  function AsLongLong(u: nat): (r: int)
    requires u < TWO_64
    ensures InLongLong(r)
    ensures r == u || r == u - TWO_64
  {
    if u < TWO_63 then u else u - TWO_64
  }

  /**
    The `long long` that holds `v` after a 64-bit unsigned computation is
    stored into it: `v` moved by multiples of 2^64 into the `long long` range.
   */
  function Wrap64(v: int): (r: int)
    ensures InLongLong(r)
    decreases if v < -TWO_63 then -v else if v >= TWO_63 then v else 0
  {
    if v < -TWO_63 then Wrap64(v + TWO_64)
    else if v >= TWO_63 then Wrap64(v - TWO_64)
    else v
  }

  /** Storing a 64-bit pattern into a `long long` reads it as signed. */
  lemma WrapPattern(u: nat)
    requires u < TWO_64
    ensures Wrap64(u) == AsLongLong(u)
  {
    if u >= TWO_63 {
      assert Wrap64(u) == Wrap64(u - TWO_64);
    }
  }

  /**
    `i += x` on a `long long` that holds the pattern `s`, done in 64-bit
    unsigned arithmetic, leaves the pattern `s + x` when that still fits.
   */
  lemma WrapStep(s: nat, x: nat)
    requires s + x < TWO_64
    ensures Wrap64(AsLongLong(s) + x) == AsLongLong(s + x)
  {
    if s < TWO_63 {
      WrapPattern(s + x);
    }
  }

  /**
    The bytes of `s`, each shifted to its place in a 64-bit pattern of
    which `s` is the most significant part, added up.
   */
  function Shifted(s: seq<byte>): nat
    requires |s| <= 8
  {
    if |s| == 0 then 0 else Shifted(s[..|s| - 1]) + s[|s| - 1] as nat * Pow256(8 - |s|)
  }

  /**
    What the `long long` holds after the source's `i = ...; i += ...;`
    statements have added the shifted bytes of `s`, each addition done in
    64-bit unsigned arithmetic and stored back.
   */
  function Accumulate64(s: seq<byte>): (i: int)
    requires |s| <= 8
    ensures InLongLong(i)
  {
    if |s| == 0 then 0
    else Wrap64(Accumulate64(s[..|s| - 1]) + s[|s| - 1] as int * Pow256(8 - |s|))
  }

  /** While the shifted bytes fit in 64 bits, the `long long` holds their sum read as signed. */
  lemma {:induction false} AccumulateShifted(s: seq<byte>)
    requires |s| <= 8 && Shifted(s) < TWO_64
    ensures Accumulate64(s) == AsLongLong(Shifted(s))
  {
    if |s| > 0 {
      var p := s[..|s| - 1];
      var x: nat := s[|s| - 1] as nat * Pow256(8 - |s|);
      assert Shifted(s) == Shifted(p) + x;
      AccumulateShifted(p);
      assert Accumulate64(s) == Wrap64(Accumulate64(p) + x);
      WrapStep(Shifted(p), x);
    }
  }

  /** Eight shifted bytes add up to the big-endian value of the eight bytes. */
  lemma ShiftedEight(s: seq<byte>)
    requires |s| == 8
    ensures Shifted(s) == BigEndian(s) < TWO_64
  {
    Pow256Table();
    assert s[..1][..0] == [];
    assert Shifted(s[..1]) == s[0] as int * 0x100_0000_0000_0000;
    assert s[..2][..1] == s[..1];
    assert Shifted(s[..2]) == Shifted(s[..1]) + s[1] as int * 0x1_0000_0000_0000;
    assert s[..3][..2] == s[..2];
    assert Shifted(s[..3]) == Shifted(s[..2]) + s[2] as int * 0x100_0000_0000;
    assert s[..4][..3] == s[..3];
    assert Shifted(s[..4]) == Shifted(s[..3]) + s[3] as int * 0x1_0000_0000;
    assert s[..5][..4] == s[..4];
    assert Shifted(s[..5]) == Shifted(s[..4]) + s[4] as int * 0x100_0000;
    assert s[..6][..5] == s[..5];
    assert Shifted(s[..6]) == Shifted(s[..5]) + s[5] as int * 0x1_0000;
    assert s[..7][..6] == s[..6];
    assert Shifted(s[..7]) == Shifted(s[..6]) + s[6] as int * 0x100;
    assert s[..8][..7] == s[..7];
    assert Shifted(s[..8]) == Shifted(s[..7]) + s[7] as int * 1;
    assert s[..8] == s;
    BigEndian8(s);
    BigEndianBound(s);
  }

  /** The `long long` read of a 64-bit pattern: its eight bytes added up, read as signed. */
  lemma AccumulateEight(s: seq<byte>)
    requires |s| == 8
    ensures BigEndian(s) < TWO_64 && Accumulate64(s) == AsLongLong(BigEndian(s))
  {
    ShiftedEight(s);
    AccumulateShifted(s);
  }
}
