/**
 The signed-window encoding under the Pedersen hash: bytes to bits, bits to segments, segments to
 scalars. Every step loses nothing.
 */
module SignedWindows {
  import opened Arithmetic
  import opened MachineInts

  const WINDOW_SIZE := 4
  const N_WINDOWS_PER_SEGMENT := 50
  const BITS_PER_SEGMENT := 200

  /** The order of the whole group. */
  const ORDER := 21888242871839275222246405745257275088614511777268538073601725287587578984328
  /** `ORDER >> 3`, the order of the prime subgroup. */
  const SUBGROUP_ORDER := 2736030358979909402780800718157159386076813972158567259200215660948447373041

  lemma SubgroupOrder()
    ensures SUBGROUP_ORDER == ORDER / 8 && SUBGROUP_ORDER * 8 == ORDER
  {
  }

  // ---------- bytes to bits ----------

  /** Bit `k` of `b`, lowest first. */
  function Bit(b: nat, k: nat): bool {
    if k == 0 then b % 2 == 1 else Bit(b / 2, k - 1)
  }

  function TestBit(data: seq<byte>, i: nat): bool
    requires i < |data| * 8
  {
    Bit(data[i / 8], i % 8)
  }

  function DataBits(data: seq<byte>): (bits: seq<bool>)
    ensures |bits| == |data| * 8
  {
    seq(|data| * 8, i requires 0 <= i < |data| * 8 => TestBit(data, i))
  }

  lemma {:induction false} BitsDetermine(a: nat, b: nat, n: nat)
    requires a < Pow(2, n) && b < Pow(2, n)
    requires forall k: nat :: k < n ==> Bit(a, k) == Bit(b, k)
    ensures a == b
  {
    if n > 0 {
      assert Bit(a, 0) == Bit(b, 0);
      forall k: nat | k < n - 1
        ensures Bit(a / 2, k) == Bit(b / 2, k)
      {
        assert Bit(a, k + 1) == Bit(b, k + 1);
      }
      BitsDetermine(a / 2, b / 2, n - 1);
    }
  }

  /** Equal bits come from equal bytes. */
  lemma DataBitsInjective(a: seq<byte>, b: seq<byte>)
    requires DataBits(a) == DataBits(b)
    ensures a == b
  {
    assert |DataBits(a)| == |DataBits(b)|;
    forall j | 0 <= j < |a|
      ensures a[j] == b[j]
    {
      forall k: nat | k < 8
        ensures Bit(a[j], k) == Bit(b[j], k)
      {
        DivModUnique(j, k, 8);
        assert DataBits(a)[j * 8 + k] == DataBits(b)[j * 8 + k];
      }
      assert Pow(2, 8) == 256;
      BitsDetermine(a[j], b[j], 8);
    }
  }

  // ---------- one segment ----------

  function BitAt(bits: seq<bool>, i: nat): bool {
    i < |bits| && bits[i]
  }

  /** One more than the number spelled by the `b` bits from `i` on, lowest first. */
  function WindowMagnitude(bits: seq<bool>, i: nat, b: nat): (m: nat)
    ensures 1 <= m <= Pow(2, b)
  {
    if b == 0 then 1
    else WindowMagnitude(bits, i, b - 1) + if BitAt(bits, i + b - 1) then Pow(2, b - 1) else 0
  }

  /** The signed digit of the window starting at `i`: magnitude `1..8`, negated by its fourth bit. */
  function Digit(bits: seq<bool>, i: nat): (d: int)
    ensures 1 <= d <= 8 || -8 <= d <= -1
  {
    assert Pow(2, 3) == 8;
    var magnitude: int := WindowMagnitude(bits, i, 3);
    if BitAt(bits, i + 3) then -magnitude else magnitude
  }

  /** The windows from bit `i` on as digits in base 32, lowest first. */
  function Windows(bits: seq<bool>, i: nat): int
    decreases |bits| - i
  {
    if i >= |bits| then 0 else Digit(bits, i) + 32 * Windows(bits, i + 4)
  }

  /** The scalar of a segment; bits past its last window do not count. */
  function Scalar(bits: seq<bool>): int {
    Windows(bits[..Min(|bits|, BITS_PER_SEGMENT)], 0)
  }

  /** Reads the window at `i`: the digit its bits spell, a bit past the end counting as clear. */
  method ReadWindow(bits: seq<bool>, i: nat) returns (acc: int)
    ensures acc == Digit(bits, i)
  {
    acc := 1;
    var b := 0;
    while b < WINDOW_SIZE - 1
      invariant 0 <= b <= WINDOW_SIZE - 1 && acc == WindowMagnitude(bits, i, b)
    {
      if i + b < |bits| && bits[i + b] {
        acc := acc + Pow(2, b);
      }
      b := b + 1;
    }
    if i + b < |bits| && bits[i + b] {
      acc := -acc;
    }
  }

  /** Bits past the last window of a segment are not read. */
  lemma DigitCounted(bits: seq<bool>, i: nat)
    requires i + 4 <= BITS_PER_SEGMENT
    ensures Digit(bits, i) == Digit(bits[..Min(|bits|, BITS_PER_SEGMENT)], i)
  {
    var counted := bits[..Min(|bits|, BITS_PER_SEGMENT)];
    assert forall j :: i <= j < i + 4 ==> BitAt(bits, j) == BitAt(counted, j);
    SameMagnitude(bits, counted, i, 3);
  }

  lemma {:induction false} SameMagnitude(a: seq<bool>, b: seq<bool>, i: nat, n: nat)
    requires forall j :: i <= j < i + n ==> BitAt(a, j) == BitAt(b, j)
    ensures WindowMagnitude(a, i, n) == WindowMagnitude(b, i, n)
  {
    if n > 0 {
      SameMagnitude(a, b, i, n - 1);
    }
  }

  method SegmentScalar(bits: seq<bool>) returns (escalar: int)
    ensures escalar == Scalar(bits)
  {
    ghost var counted := bits[..Min(|bits|, BITS_PER_SEGMENT)];
    escalar := 0;
    var exp, i, w := 1, 0, 0;
    while w < N_WINDOWS_PER_SEGMENT && i < |bits|
      invariant 0 <= w <= N_WINDOWS_PER_SEGMENT && i == 4 * w
      invariant escalar + exp * Windows(counted, i) == Scalar(bits)
    {
      var acc := ReadWindow(bits, i);
      DigitCounted(bits, i);
      Accumulate(escalar, exp, acc, Windows(counted, i + 4));
      escalar := escalar + acc * exp;
      exp, i, w := exp * 32, i + WINDOW_SIZE, w + 1;
    }
  }

  lemma Accumulate(escalar: int, exp: int, acc: int, rest: int)
    ensures escalar + exp * (acc + 32 * rest) == (escalar + acc * exp) + (exp * 32) * rest
  {
  }

  /** The digits are in `-8..8` and never zero, so the value is below half of `32^n`. */
  lemma {:induction false} WindowsBound(bits: seq<bool>, i: nat, n: nat)
    requires |bits| <= i + 4 * n
    ensures -8 * (Pow(32, n) - 1) <= 31 * Windows(bits, i) <= 8 * (Pow(32, n) - 1)
    decreases n
  {
    PowPositive(32, n);
    if i < |bits| {
      WindowsBound(bits, i + 4, n - 1);
    }
  }

  /** Without a zero among the digits, only no digits at all make zero. */
  lemma OnlyNothingIsZero(bits: seq<bool>, i: nat)
    ensures Windows(bits, i) == 0 <==> i >= |bits|
  {
  }

  /** A digit and the rest are determined by the number they make. */
  lemma LowestDigit(d: int, rest: int, d': int, rest': int)
    requires -8 <= d <= 8 && -8 <= d' <= 8 && d + 32 * rest == d' + 32 * rest'
    ensures d == d' && rest == rest'
  {
  }

  /** Two window sequences with the same value have the same length and the same bits. */
  lemma {:induction false} WindowsInjective(a: seq<bool>, b: seq<bool>, i: nat)
    requires |a| % 4 == 0 && |b| % 4 == 0 && i % 4 == 0
    requires Windows(a, i) == Windows(b, i)
    ensures i < |a| || i < |b| ==> |a| == |b|
    ensures forall j :: i <= j < |a| && j < |b| ==> a[j] == b[j]
    decreases |a| - i
  {
    OnlyNothingIsZero(a, i);
    OnlyNothingIsZero(b, i);
    if i < |a| {
      LowestDigit(Digit(a, i), Windows(a, i + 4), Digit(b, i), Windows(b, i + 4));
      DigitInjective(a, b, i);
      WindowsInjective(a, b, i + 4);
    }
  }

  lemma DigitInjective(a: seq<bool>, b: seq<bool>, i: nat)
    requires i + 4 <= |a| && i + 4 <= |b| && Digit(a, i) == Digit(b, i)
    ensures forall j :: i <= j < i + 4 ==> a[j] == b[j]
  {
    WindowMagnitudeInjective(a, b, i, 3);
    forall j | i <= j < i + 4
      ensures BitAt(a, j) == BitAt(b, j)
    {
    }
    assert forall j :: i <= j < i + 4 ==> a[j] == BitAt(a, j) && b[j] == BitAt(b, j);
  }

  lemma {:induction false} WindowMagnitudeInjective(a: seq<bool>, b: seq<bool>, i: nat, n: nat)
    requires WindowMagnitude(a, i, n) == WindowMagnitude(b, i, n)
    ensures forall j :: i <= j < i + n ==> BitAt(a, j) == BitAt(b, j)
  {
    if n > 0 {
      WindowMagnitudeInjective(a, b, i, n - 1);
    }
  }

  lemma WindowPower10()
    ensures Pow(32, 10) == 1125899906842624
  {
    assert Pow(32, 5) == 33554432;
    PowAdd(32, 5, 5);
  }

  /** `32^50`, spelled out. */
  lemma LargestWindowPower()
    ensures Pow(32, 50) == 1809251394333065553493296640760748560207343510400633813116524750123642650624
  {
    WindowPower10();
    PowAdd(32, 10, 10);
    PowAdd(32, 20, 20);
    PowAdd(32, 40, 10);
  }

  /** The largest magnitude of a scalar is less than half the order of the subgroup. */
  lemma ScalarBound(bits: seq<bool>)
    ensures -8 * (Pow(32, 50) - 1) <= 31 * Scalar(bits) <= 8 * (Pow(32, 50) - 1)
    ensures -SUBGROUP_ORDER < 2 * Scalar(bits) < SUBGROUP_ORDER
  {
    WindowsBound(bits[..Min(|bits|, BITS_PER_SEGMENT)], 0, N_WINDOWS_PER_SEGMENT);
    LargestWindowPower();
  }

  /** On whole windows the scalar of a segment determines its bits, and their number. */
  lemma ScalarInjective(a: seq<bool>, b: seq<bool>)
    requires |a| <= BITS_PER_SEGMENT && |b| <= BITS_PER_SEGMENT && |a| % 4 == 0 && |b| % 4 == 0
    requires Scalar(a) == Scalar(b)
    ensures a == b
  {
    assert a[..|a|] == a && b[..|b|] == b;
    WindowsInjective(a, b, 0);
  }

  function FixUpBy(order: nat, escalar: int): int {
    if escalar < 0 then escalar + order else escalar
  }

  /** Negative scalars are moved up by the order of the subgroup. */
  function FixUp(escalar: int): int { FixUpBy(SUBGROUP_ORDER, escalar) }

  /** The fix-up lands below the order of the subgroup and merges no two scalars. */
  lemma FixUpInjective(a: seq<bool>, b: seq<bool>)
    ensures 0 <= FixUp(Scalar(a)) < SUBGROUP_ORDER
    ensures FixUp(Scalar(a)) == FixUp(Scalar(b)) ==> Scalar(a) == Scalar(b)
  {
    ScalarBound(a);
    ScalarBound(b);
  }

  // ---------- all segments ----------

  function SegmentCount(bits: seq<bool>): nat {
    (if |bits| == 0 then 0 else |bits| - 1) / BITS_PER_SEGMENT + 1
  }

  function Segment(bits: seq<bool>, s: nat): (segment: seq<bool>)
    requires s < SegmentCount(bits)
  {
    bits[s * BITS_PER_SEGMENT..Min((s + 1) * BITS_PER_SEGMENT, |bits|)]
  }

  /** The scalars a byte string is hashed through, one a segment. */
  function Scalars(data: seq<byte>): (scalars: seq<int>)
    ensures |scalars| == SegmentCount(DataBits(data))
  {
    var bits := DataBits(data);
    seq(SegmentCount(bits), s requires 0 <= s < SegmentCount(bits) => FixUp(Scalar(Segment(bits, s))))
  }

  lemma SegmentsDetermine(a: seq<bool>, b: seq<bool>)
    requires SegmentCount(a) == SegmentCount(b)
    requires forall s: nat :: s < SegmentCount(a) ==> Segment(a, s) == Segment(b, s)
    ensures a == b
  {
    var last := SegmentCount(a) - 1;
    assert Segment(a, last) == Segment(b, last);
    assert |a| == last * BITS_PER_SEGMENT + |Segment(a, last)|;
    assert |b| == last * BITS_PER_SEGMENT + |Segment(b, last)|;
    forall i | 0 <= i < |a|
      ensures a[i] == b[i]
    {
      var s := i / BITS_PER_SEGMENT;
      assert Segment(a, s)[i - s * BITS_PER_SEGMENT] == a[i];
      assert Segment(b, s)[i - s * BITS_PER_SEGMENT] == b[i];
    }
  }

  lemma SegmentInjective(a: seq<bool>, b: seq<bool>, s: nat)
    requires |a| % 8 == 0 && |b| % 8 == 0 && s < SegmentCount(a) && s < SegmentCount(b)
    requires FixUp(Scalar(Segment(a, s))) == FixUp(Scalar(Segment(b, s)))
    ensures Segment(a, s) == Segment(b, s)
  {
    SegmentShape(a, s);
    SegmentShape(b, s);
    FixUpInjective(Segment(a, s), Segment(b, s));
    ScalarInjective(Segment(a, s), Segment(b, s));
  }

  lemma SegmentShape(bits: seq<bool>, s: nat)
    requires |bits| % 8 == 0 && s < SegmentCount(bits)
    ensures |Segment(bits, s)| <= BITS_PER_SEGMENT && |Segment(bits, s)| % 4 == 0
  {
    var n := |bits| / 8;
    if (s + 1) * BITS_PER_SEGMENT > |bits| {
      assert |Segment(bits, s)| == 4 * (2 * n - 50 * s);
    }
  }

  /** Byte strings of any lengths with the same scalars are equal. */
  lemma ScalarsInjective(a: seq<byte>, b: seq<byte>)
    requires Scalars(a) == Scalars(b)
    ensures a == b
  {
    var x, y := DataBits(a), DataBits(b);
    assert SegmentCount(x) == |Scalars(a)| == |Scalars(b)| == SegmentCount(y);
    forall s: nat | s < SegmentCount(x)
      ensures FixUp(Scalar(Segment(x, s))) == FixUp(Scalar(Segment(y, s)))
    {
      assert Scalars(a)[s] == Scalars(b)[s];
    }
    EncodedBitsInjective(x, y);
    DataBitsInjective(a, b);
  }

  lemma EncodedBitsInjective(a: seq<bool>, b: seq<bool>)
    requires |a| % 8 == 0 && |b| % 8 == 0 && SegmentCount(a) == SegmentCount(b)
    requires forall s: nat :: s < SegmentCount(a) ==> FixUp(Scalar(Segment(a, s))) == FixUp(Scalar(Segment(b, s)))
    ensures a == b
  {
    forall s: nat | s < SegmentCount(a)
      ensures Segment(a, s) == Segment(b, s)
    {
      SegmentInjective(a, b, s);
    }
    SegmentsDetermine(a, b);
  }
}
