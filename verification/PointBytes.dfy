/** The bytes of compressed points: the number they spell, the sign bit above it, and the bit a digest loses. */
module PointBytes {
  import opened Arithmetic
  import opened MachineInts
  import opened SignedWindows
  import opened Pedersen

  /** `bytes[0] + bytes[1] * 256 + ... + bytes[n - 1] * 256^(n - 1)`. */
  function ByteSum(bytes: seq<byte>, n: nat): nat
    requires n <= |bytes|
  {
    if n == 0 then 0 else ByteSum(bytes, n - 1) + bytes[n - 1] * Pow(256, n - 1)
  }

  lemma Carry(power: nat, low: nat, high: nat)
    ensures power * (low + 256 * high) == low * power + (256 * power) * high
  {
  }

  lemma {:induction false} ReadUpTo(bytes: seq<byte>, n: nat)
    requires n <= |bytes|
    ensures ByteSum(bytes, n) + Pow(256, n) * LittleEndian(bytes[n..]) == LittleEndian(bytes)
  {
    if n == 0 {
      assert bytes[0..] == bytes;
    } else {
      ReadUpTo(bytes, n - 1);
      assert bytes[n - 1..][1..] == bytes[n..];
      Carry(Pow(256, n - 1), bytes[n - 1], LittleEndian(bytes[n..]));
    }
  }

  /** The number read from bytes is their sum by powers of 256, lowest first. */
  lemma LittleEndianIsSum(bytes: seq<byte>)
    ensures LittleEndian(bytes) == ByteSum(bytes, |bytes|)
  {
    ReadUpTo(bytes, |bytes|);
  }

  lemma {:induction false} SameSum(a: seq<byte>, b: seq<byte>, n: nat)
    requires n <= |a| && n <= |b| && a[..n] == b[..n]
    ensures ByteSum(a, n) == ByteSum(b, n)
  {
    if n > 0 {
      assert a[..n - 1] == a[..n][..n - 1] == b[..n][..n - 1] == b[..n - 1];
      assert a[n - 1] == a[..n][n - 1] == b[..n][n - 1] == b[n - 1];
      SameSum(a, b, n - 1);
    }
  }

  /** The sign is bit 255 of the compressed point; the y-coordinate is the number of the bits below it. */
  lemma UnmaskSplits(bytes: seq<byte>)
    requires |bytes| == 32
    ensures var (y, sign) := Unmask(bytes);
            && LittleEndian(bytes) == LittleEndian(y) + (if sign then 128 * Pow(256, 31) else 0)
            && LittleEndian(y) < 128 * Pow(256, 31)
  {
    var (y, sign) := Unmask(bytes);
    SameSum(bytes, y, 31);
    TopByte(bytes, 31);
    TopByte(y, 31);
    SumBelow(y, 31);
    SignSplits(LittleEndian(bytes), LittleEndian(y), bytes[31], ByteSum(y, 31), Pow(256, 31));
  }

  lemma TopByte(bytes: seq<byte>, n: nat)
    requires |bytes| == n + 1
    ensures LittleEndian(bytes) == ByteSum(bytes, n) + bytes[n] * Pow(256, n)
  {
    LittleEndianIsSum(bytes);
  }

  lemma SignSplits(whole: nat, y: nat, top: nat, rest: nat, power: nat)
    requires whole == rest + top * power && y == rest + (top % 128) * power && top < 256 && rest < power
    ensures whole == y + (if top >= 128 then 128 * power else 0) && y < 128 * power
  {
    MulMonotone(top % 128 + 1, 128, power);
    MulDistribute(top % 128, 1, power);
    MulDistribute(top % 128, top - top % 128, power);
  }

  lemma {:induction false} SumBelow(bytes: seq<byte>, n: nat)
    requires n <= |bytes|
    ensures ByteSum(bytes, n) < Pow(256, n)
  {
    if n > 0 {
      SumBelow(bytes, n - 1);
      MulMonotone(bytes[n - 1], 255, Pow(256, n - 1));
    }
  }

  /** Setting bit `n` of a number that has it clear sets that bit and no other. */
  lemma {:induction false} SetBit(m: nat, n: nat, k: nat)
    requires !Bit(m, n)
    ensures Bit(m + Pow(2, n), k) <==> k == n || Bit(m, k)
  {
    if n == 0 {
      assert (m + 1) / 2 == m / 2;
    } else {
      assert (m + Pow(2, n)) / 2 == m / 2 + Pow(2, n - 1);
      if k > 0 {
        SetBit(m / 2, n - 1, k - 1);
      }
    }
  }

  lemma SixthBit(b: nat)
    ensures Bit(b, 6) <==> b / 64 % 2 == 1
  {
    assert Bit(b, 6) == Bit(b / 2, 5) == Bit(b / 2 / 2, 4) == Bit(b / 2 / 2 / 2, 3);
    assert b / 2 / 2 / 2 == b / 8;
    assert Bit(b / 8, 3) == Bit(b / 8 / 2, 2) == Bit(b / 8 / 2 / 2, 1) == Bit(b / 8 / 2 / 2 / 2, 0);
    assert b / 8 / 2 / 2 / 2 == b / 64;
  }

  /** Masking clears bit 254 of a digest and keeps the others. */
  lemma MaskedClears(h: seq<byte>, j: nat)
    requires |h| == 32 && j < 256
    ensures DataBits(Masked(h))[j] <==> j != 254 && DataBits(h)[j]
  {
    var b, m := h[31], Masked(h)[31];
    if j >= 248 {
      var k := j - 248;
      assert TestBit(h, j) == Bit(b, k) && TestBit(Masked(h), j) == Bit(m, k);
      MaskedByte(b, m, k);
    }
  }

  lemma MaskedByte(b: nat, m: nat, k: nat)
    requires b < 256 && m == if b / 64 % 2 == 1 then b - 64 else b
    ensures Bit(m, k) <==> k != 6 && Bit(b, k)
  {
    SixthBit(b);
    SixthBit(m);
    assert Pow(2, 6) == 64;
    SetBit(m, 6, k);
  }
}
