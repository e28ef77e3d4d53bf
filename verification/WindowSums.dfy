/** What the bits of bytes, windows and segments spell, as plain sums. */
module WindowSums {
  import opened Arithmetic
  import opened MachineInts
  import opened SignedWindows

  /** A bit as a number; bits past the end are clear. */
  function BitValue(bits: seq<bool>, i: nat): int { if i < |bits| && bits[i] then 1 else 0 }

  // ---------- bytes ----------

  function Low(b: nat, k: nat): int { if Bit(b, k) then 1 else 0 }

  /** Four bits of a number and what is left above them. */
  lemma FourLowBits(b: nat)
    ensures b == Low(b, 0) + 2 * Low(b, 1) + 4 * Low(b, 2) + 8 * Low(b, 3) + 16 * (b / 16)
  {
    assert Bit(b, 1) == Bit(b / 2, 0);
    assert Bit(b, 2) == Bit(b / 2, 1) == Bit(b / 2 / 2, 0);
    assert Bit(b, 3) == Bit(b / 2, 2) == Bit(b / 2 / 2, 1) == Bit(b / 2 / 2 / 2, 0);
    assert b / 2 / 2 / 2 / 2 == b / 16;
  }

  lemma FourBitsOn(b: nat, k: nat)
    ensures Low(b, k + 4) == Low(b / 16, k)
  {
    assert Bit(b, k + 4) == Bit(b / 2, k + 3) == Bit(b / 2 / 2, k + 2) == Bit(b / 2 / 2 / 2, k + 1);
    assert b / 2 / 2 / 2 / 2 == b / 16;
  }

  lemma ByteBit(data: seq<byte>, j: nat, k: nat)
    requires j < |data| && k < 8
    ensures BitValue(DataBits(data), 8 * j + k) == Low(data[j], k)
  {
    DivModUnique(j, k, 8);
  }

  /** The eight bits read from a byte spell it, lowest bit first. */
  lemma BytesAreSums(data: seq<byte>, j: nat)
    requires j < |data|
    ensures var bits := DataBits(data);
            && |bits| == 8 * |data|
            && data[j] == BitValue(bits, 8 * j) + 2 * BitValue(bits, 8 * j + 1) + 4 * BitValue(bits, 8 * j + 2)
                          + 8 * BitValue(bits, 8 * j + 3) + 16 * BitValue(bits, 8 * j + 4)
                          + 32 * BitValue(bits, 8 * j + 5) + 64 * BitValue(bits, 8 * j + 6)
                          + 128 * BitValue(bits, 8 * j + 7)
  {
    FirstHalf(data, j);
    SecondHalf(data, j);
  }

  lemma FirstHalf(data: seq<byte>, j: nat)
    requires j < |data|
    ensures var bits := DataBits(data);
            BitValue(bits, 8 * j) + 2 * BitValue(bits, 8 * j + 1) + 4 * BitValue(bits, 8 * j + 2)
              + 8 * BitValue(bits, 8 * j + 3) + 16 * (data[j] / 16) == data[j]
  {
    FourLowBits(data[j]);
    ByteBit(data, j, 0);
    ByteBit(data, j, 1);
    ByteBit(data, j, 2);
    ByteBit(data, j, 3);
  }

  lemma SecondHalf(data: seq<byte>, j: nat)
    requires j < |data|
    ensures var bits := DataBits(data);
            BitValue(bits, 8 * j + 4) + 2 * BitValue(bits, 8 * j + 5) + 4 * BitValue(bits, 8 * j + 6)
              + 8 * BitValue(bits, 8 * j + 7) == data[j] / 16
  {
    FourLowBits(data[j] / 16);
    HighBit(data, j, 0);
    HighBit(data, j, 1);
    HighBit(data, j, 2);
    HighBit(data, j, 3);
  }

  lemma HighBit(data: seq<byte>, j: nat, k: nat)
    requires j < |data| && k < 4
    ensures BitValue(DataBits(data), 8 * j + (k + 4)) == Low(data[j] / 16, k)
  {
    ByteBit(data, j, k + 4);
    FourBitsOn(data[j], k);
  }

  // ---------- windows ----------

  /**
   The first `n` windows of four bits from `first` on: one more than the number of the low three bits,
   negated by the fourth, times `32^w` for window `w`.
   */
  function WindowSum(bits: seq<bool>, first: nat, n: nat): int {
    if n == 0 then 0
    else
      var i := first + 4 * (n - 1);
      var magnitude := 1 + BitValue(bits, i) + 2 * BitValue(bits, i + 1) + 4 * BitValue(bits, i + 2);
      WindowSum(bits, first, n - 1) + (if BitValue(bits, i + 3) == 1 then -magnitude else magnitude) * Pow(32, n - 1)
  }

  lemma DigitIs(bits: seq<bool>, i: nat)
    ensures var magnitude := 1 + BitValue(bits, i) + 2 * BitValue(bits, i + 1) + 4 * BitValue(bits, i + 2);
            Digit(bits, i) == if BitValue(bits, i + 3) == 1 then -magnitude else magnitude
  {
    assert Pow(2, 0) == 1 && Pow(2, 1) == 2 && Pow(2, 2) == 4;
    assert WindowMagnitude(bits, i, 1) == WindowMagnitude(bits, i, 0) + BitValue(bits, i);
    assert WindowMagnitude(bits, i, 2) == WindowMagnitude(bits, i, 1) + 2 * BitValue(bits, i + 1);
    assert WindowMagnitude(bits, i, 3) == WindowMagnitude(bits, i, 2) + 4 * BitValue(bits, i + 2);
  }

  /** The windows up to `w` and the value of those after it. */
  lemma {:induction false} WindowsAreSum(bits: seq<bool>, w: nat)
    requires w <= CeilDiv(|bits|, 4)
    ensures WindowSum(bits, 0, w) + Pow(32, w) * Windows(bits, 4 * w) == Windows(bits, 0)
  {
    if w > 0 {
      BelowCeilDiv(w - 1, |bits|, 4);
      WindowsAreSum(bits, w - 1);
      DigitIs(bits, 4 * (w - 1));
      Unroll(Pow(32, w - 1), Digit(bits, 4 * (w - 1)), Windows(bits, 4 * w));
    }
  }

  lemma Unroll(power: int, digit: int, rest: int)
    ensures power * (digit + 32 * rest) == digit * power + (32 * power) * rest
  {
  }

  predicate SameBit(a: seq<bool>, first: nat, b: seq<bool>, start: nat, k: nat) {
    BitValue(a, first + k) == BitValue(b, start + k)
  }

  /** Windows read the same bits wherever they are read from. */
  lemma {:induction false} SameWindows(a: seq<bool>, first: nat, b: seq<bool>, start: nat, n: nat)
    requires forall k: nat :: k < 4 * n ==> SameBit(a, first, b, start, k)
    ensures WindowSum(a, first, n) == WindowSum(b, start, n)
  {
    if n > 0 {
      var k := 4 * (n - 1);
      SameWindows(a, first, b, start, n - 1);
      assert SameBit(a, first, b, start, k) && SameBit(a, first, b, start, k + 1);
      assert SameBit(a, first, b, start, k + 2) && SameBit(a, first, b, start, k + 3);
    }
  }

  lemma CountedWindows(n: nat)
    ensures CeilDiv(Min(n, 200), 4) == Min(CeilDiv(n, 4), 50)
  {
  }

  /** The scalar of a segment is the sum over its windows, at most fifty of them. */
  lemma ScalarIsSum(bits: seq<bool>)
    ensures Scalar(bits) == WindowSum(bits, 0, Min(CeilDiv(|bits|, 4), 50))
  {
    var counted := bits[..Min(|bits|, BITS_PER_SEGMENT)];
    var n := Min(CeilDiv(|bits|, 4), 50);
    CountedWindows(|bits|);
    WindowsAreSum(counted, n);
    OnlyNothingIsZero(counted, 4 * n);
    assert forall k: nat :: k < 4 * n ==> SameBit(counted, 0, bits, 0, k);
    SameWindows(counted, 0, bits, 0, n);
  }

  /**
   The scalars a byte string is hashed through: one for every 200 bits begun, at least one. Each is
   the sum over its windows, read from the bits of the whole string, moved up by the order of the
   subgroup if it is negative.
   */
  lemma ScalarsAreSums(data: seq<byte>, s: nat)
    requires s < |Scalars(data)|
    ensures |Scalars(data)| == Max(1, CeilDiv(8 * |data|, 200))
    ensures 200 * s <= 8 * |data|
    ensures var escalar := WindowSum(DataBits(data), 200 * s, Min(CeilDiv(8 * |data| - 200 * s, 4), 50));
            Scalars(data)[s] == if escalar < 0 then escalar + SUBGROUP_ORDER else escalar
  {
    var bits := DataBits(data);
    SegmentIsSum(bits, s);
    assert Scalars(data)[s] == FixUp(Scalar(Segment(bits, s)));
  }

  /** The segments of a bit list are its runs of 200 bits, the last one shorter. */
  lemma SegmentIsSum(bits: seq<bool>, s: nat)
    requires s < SegmentCount(bits)
    ensures SegmentCount(bits) == Max(1, CeilDiv(|bits|, 200)) && 200 * s <= |bits|
    ensures Scalar(Segment(bits, s)) == WindowSum(bits, 200 * s, Min(CeilDiv(|bits| - 200 * s, 4), 50))
  {
    var segment, n := Segment(bits, s), Min(CeilDiv(|bits| - 200 * s, 4), 50);
    assert |segment| == Min(200, |bits| - 200 * s);
    assert Min(CeilDiv(|segment|, 4), 50) == n;
    ScalarIsSum(segment);
    forall k: nat | k < 4 * n
      ensures SameBit(segment, 0, bits, 200 * s, k)
    {
      assert k < |segment| ==> segment[k] == bits[200 * s + k];
    }
    SameWindows(segment, 0, bits, 200 * s, n);
  }
}
