/** Decimal amounts: printing a scaled integer exactly and in one canonical form. */
module Amounts {
  import opened Arithmetic
  import opened Text

  function DigitChar(d: nat): char
    requires d < 10
  {
    ['0', '1', '2', '3', '4', '5', '6', '7', '8', '9'][d]
  }

  predicate IsDigit(c: char) { '0' <= c <= '9' }

  function DigitValue(c: char): (v: nat)
    requires IsDigit(c)
    ensures v < 10
  {
    c as int - '0' as int
  }

  predicate AllDigits(s: string) { forall i :: 0 <= i < |s| ==> IsDigit(s[i]) }

  /** An integer in decimal, as `to_string` prints it. */
  function Digits(n: nat): (s: string)
    ensures |s| > 0 && AllDigits(s)
  {
    if n < 10 then [DigitChar(n)] else Digits(n / 10) + [DigitChar(n % 10)]
  }

  /** The number a digit string spells. */
  function Value(s: string): nat
    requires AllDigits(s)
  {
    if s == [] then 0 else 10 * Value(s[..|s| - 1]) + DigitValue(s[|s| - 1])
  }

  /** `n` with `k` zeros after it: `n * 10^k`, see `ShiftedIsPower`. */
  function Shifted(n: nat, k: nat): nat {
    if k == 0 then n else 10 * Shifted(n, k - 1)
  }

  function Zeros(n: nat): (s: string)
    ensures |s| == n && AllDigits(s) && forall i :: 0 <= i < n ==> s[i] == '0'
  {
    seq(n, _ => '0')
  }

  /** Rust's `trim_end_matches` for one character. */
  function TrimEnd(s: string, c: char): (t: string)
    ensures t <= s && (t != [] ==> t[|t| - 1] != c)
  {
    if s == [] || s[|s| - 1] != c then s else TrimEnd(s[..|s| - 1], c)
  }

  /** The digits before and after the point when `amount` is read with `decimals` decimals. */
  function Parts(amount: nat, decimals: nat): (parts: (string, string))
    ensures AllDigits(parts.0) && AllDigits(parts.1)
  {
    var digits := Digits(amount);
    if |digits| > decimals then (digits[..|digits| - decimals], digits[|digits| - decimals..])
    else ("0", Zeros(decimals - |digits|) + digits)
  }

  /** The printed amount. */
  function Formatted(amount: nat, decimals: nat): string {
    if decimals == 0 || amount == 0 then Digits(amount)
    else
      var (whole, fraction) := Parts(amount, decimals);
      TrimEnd(TrimEnd(whole + "." + fraction, '0'), '.')
  }

  /** Puts the point into the digits, with zeros before them where they are too few. */
  method PlacePoint(amount: nat, decimals: nat) returns (pointed: string)
    requires decimals > 0
    ensures pointed == Parts(amount, decimals).0 + "." + Parts(amount, decimals).1
  {
    var digits := Digits(amount);
    if |digits| > decimals {
      var point := |digits| - decimals;
      pointed := digits[..point] + "." + digits[point..];
    } else {
      pointed := "0." + Zeros(decimals - |digits|) + digits;
      assert pointed == "0" + "." + (Zeros(decimals - |digits|) + digits);
    }
  }

  /** Prints an amount exactly: the output is canonical and read back and scaled it is the amount again. */
  method FormatAmount(amount: nat, decimals: nat) returns (formatted: string)
    ensures formatted == Formatted(amount, decimals) && Exact(formatted, amount, decimals)
  {
    FormattedExact(amount, decimals);
    if decimals == 0 || amount == 0 {
      return Digits(amount);
    }
    var pointed := PlacePoint(amount, decimals);
    formatted := TrimEnd(TrimEnd(pointed, '0'), '.');
  }

  // ---------- reading an amount back ----------

  /** The position of the point, or the length without one. */
  function PointAt(s: string): nat { Find(s, '.') }

  function Whole(s: string): string { s[..PointAt(s)] }

  function Fraction(s: string): string { if PointAt(s) < |s| then s[PointAt(s) + 1..] else [] }

  /**
   Digits with at most one point: no redundant leading zero, and after a point at least one digit,
   the last of them not a zero.
   */
  predicate Canonical(s: string) {
    && AllDigits(Whole(s)) && AllDigits(Fraction(s))
    && |Whole(s)| > 0
    && (Whole(s)[0] == '0' ==> |Whole(s)| == 1)
    && (PointAt(s) < |s| ==> |Fraction(s)| > 0 && Fraction(s)[|Fraction(s)| - 1] != '0')
  }

  /** The decimal `s` times `10^decimals`. */
  function Scaled(s: string, decimals: nat): nat
    requires AllDigits(Whole(s)) && AllDigits(Fraction(s)) && |Fraction(s)| <= decimals
  {
    Shifted(Value(Whole(s)), decimals) + Shifted(Value(Fraction(s)), decimals - |Fraction(s)|)
  }

  // ---------- shifts ----------

  lemma {:induction false} ShiftedIsPower(n: nat, k: nat)
    ensures Shifted(n, k) == n * Pow(10, k)
  {
    if k > 0 {
      ShiftedIsPower(n, k - 1);
      MulAssociate(10, n, Pow(10, k - 1));
      MulAssociate(n, 10, Pow(10, k - 1));
    }
  }

  lemma {:induction false} ShiftedAdd(m: nat, n: nat, k: nat)
    ensures Shifted(m + n, k) == Shifted(m, k) + Shifted(n, k)
  {
    if k > 0 {
      ShiftedAdd(m, n, k - 1);
    }
  }

  lemma {:induction false} ShiftedTwice(n: nat, j: nat, k: nat)
    ensures Shifted(Shifted(n, j), k) == Shifted(n, j + k)
  {
    if k > 0 {
      ShiftedTwice(n, j, k - 1);
    }
  }

  lemma {:induction false} ShiftedInjective(m: nat, n: nat, k: nat)
    requires Shifted(m, k) == Shifted(n, k)
    ensures m == n
  {
    if k > 0 {
      ShiftedInjective(m, n, k - 1);
    }
  }

  // ---------- digit strings ----------

  lemma {:induction false} DigitsValue(n: nat)
    ensures Value(Digits(n)) == n
    ensures Digits(n)[0] == '0' ==> n == 0 && |Digits(n)| == 1
  {
    if n >= 10 {
      DigitsValue(n / 10);
      assert Digits(n)[..|Digits(n)| - 1] == Digits(n / 10);
    }
  }

  lemma {:induction false} ValueConcat(a: string, b: string)
    requires AllDigits(a) && AllDigits(b)
    ensures AllDigits(a + b)
    ensures Value(a + b) == Shifted(Value(a), |b|) + Value(b)
  {
    if b == [] {
      assert a + b == a;
    } else {
      var b' := b[..|b| - 1];
      ValueConcat(a, b');
      assert (a + b)[..|a + b| - 1] == a + b';
    }
  }

  lemma {:induction false} ZerosValue(n: nat)
    ensures Value(Zeros(n)) == 0
  {
    if n > 0 {
      ZerosValue(n - 1);
      assert Zeros(n)[..n - 1] == Zeros(n - 1);
    }
  }

  /** The first `n` digits, each times the power of ten of its place in the whole string. */
  function DigitSum(s: string, n: nat): int
    requires n <= |s|
  {
    if n == 0 then 0 else DigitSum(s, n - 1) + (s[n - 1] as int - '0' as int) * Pow(10, |s| - n)
  }

  /** The value of a digit string is the sum of its digits by powers of ten. */
  lemma ValueIsSum(s: string)
    requires AllDigits(s)
    ensures Value(s) == DigitSum(s, |s|)
  {
    ValueUpTo(s, |s|);
    assert s[..|s|] == s && Pow(10, 0) == 1;
  }

  lemma {:induction false} ValueUpTo(s: string, n: nat)
    requires AllDigits(s) && n <= |s|
    ensures Value(s[..n]) * Pow(10, |s| - n) == DigitSum(s, n)
  {
    if n == 0 {
      assert s[..0] == [];
    } else {
      ValueUpTo(s, n - 1);
      assert s[..n][..n - 1] == s[..n - 1];
      NextDigit(Value(s[..n - 1]), DigitValue(s[n - 1]), Pow(10, |s| - n));
    }
  }

  lemma NextDigit(v: nat, d: nat, power: nat)
    ensures (10 * v + d) * power == v * (10 * power) + d * power
  {
  }

  /** Trailing zeros only scale. */
  lemma {:induction false} TrimmedValue(s: string)
    requires AllDigits(s)
    ensures AllDigits(TrimEnd(s, '0'))
    ensures Value(s) == Shifted(Value(TrimEnd(s, '0')), |s| - |TrimEnd(s, '0')|)
  {
    if s != [] && s[|s| - 1] == '0' {
      var s' := s[..|s| - 1];
      TrimmedValue(s');
    }
  }

  // ---------- printing is exact and canonical ----------

  lemma PartsExact(amount: nat, decimals: nat)
    requires decimals > 0
    ensures var (whole, fraction) := Parts(amount, decimals);
            && AllDigits(whole) && AllDigits(fraction) && |fraction| == decimals && |whole| > 0
            && (whole[0] == '0' ==> |whole| == 1)
            && Shifted(Value(whole), decimals) + Value(fraction) == amount
  {
    var digits := Digits(amount);
    DigitsValue(amount);
    var (whole, fraction) := Parts(amount, decimals);
    if |digits| > decimals {
      SplitValue(digits, |digits| - decimals);
    } else {
      PaddedValue(digits, decimals);
    }
  }

  lemma SplitValue(digits: string, point: nat)
    requires AllDigits(digits) && 0 < point <= |digits|
    ensures AllDigits(digits[..point]) && AllDigits(digits[point..])
    ensures Shifted(Value(digits[..point]), |digits| - point) + Value(digits[point..]) == Value(digits)
  {
    assert digits[..point] + digits[point..] == digits;
    ValueConcat(digits[..point], digits[point..]);
  }

  lemma PaddedValue(digits: string, decimals: nat)
    requires AllDigits(digits) && |digits| <= decimals
    ensures Shifted(Value("0"), decimals) + Value(Zeros(decimals - |digits|) + digits) == Value(digits)
  {
    var zeros := Zeros(decimals - |digits|);
    ZerosValue(decimals - |digits|);
    ValueConcat(zeros, digits);
    ZeroShifted(|digits|);
    ZeroShifted(decimals);
    ValueOfZero();
  }

  lemma ValueOfZero()
    ensures Value("0") == 0
  {
    assert "0"[..0] == [];
  }

  lemma {:induction false} ZeroShifted(k: nat)
    ensures Shifted(0, k) == 0
  {
    if k > 0 {
      ZeroShifted(k - 1);
    }
  }

  /** Trimming zeros stops at the point; a point left at the end goes too. */
  lemma TrimAroundPoint(whole: string, fraction: string)
    requires AllDigits(whole) && AllDigits(fraction) && |whole| > 0
    ensures var t := TrimEnd(fraction, '0');
            TrimEnd(TrimEnd(whole + "." + fraction, '0'), '.') == if t == [] then whole else whole + "." + t
  {
    TrimZeros(whole, fraction);
    var t := TrimEnd(fraction, '0');
    if t == [] {
      var s := whole + ".";
      assert whole + "." + t == s && s[..|s| - 1] == whole;
      assert whole[|whole| - 1] != '.';
    } else {
      assert t[|t| - 1] == fraction[|t| - 1];
    }
  }

  lemma {:induction false} TrimZeros(whole: string, fraction: string)
    ensures TrimEnd(whole + "." + fraction, '0') == whole + "." + TrimEnd(fraction, '0')
  {
    var s := whole + "." + fraction;
    if fraction != [] && fraction[|fraction| - 1] == '0' {
      assert s[..|s| - 1] == whole + "." + fraction[..|fraction| - 1];
      TrimZeros(whole, fraction[..|fraction| - 1]);
    }
  }

  /** The parts of `whole.fraction` are `whole` and `fraction`. */
  lemma PartsOfPointed(whole: string, fraction: string)
    requires '.' !in whole
    ensures PointAt(whole + "." + fraction) == |whole|
    ensures Whole(whole + "." + fraction) == whole && Fraction(whole + "." + fraction) == fraction
  {
    FindAfter(whole, fraction, '.');
    assert whole + ['.'] + fraction == whole + "." + fraction;
  }

  lemma PartsOfPlain(whole: string)
    requires '.' !in whole
    ensures PointAt(whole) == |whole| && Whole(whole) == whole && Fraction(whole) == []
  {
    FindNone(whole, '.');
  }

  lemma DigitsHaveNoPoint(s: string)
    requires AllDigits(s)
    ensures '.' !in s && '-' !in s
  {
  }

  /**
   Printing is exact and canonical: read back as a decimal and scaled, the output is the amount
   again, and it has no redundant zero or point.
   */
  lemma FormattedExact(amount: nat, decimals: nat)
    ensures Exact(Formatted(amount, decimals), amount, decimals)
  {
    DigitsValue(amount);
    if decimals == 0 || amount == 0 {
      ZeroShifted(decimals);
      DigitsHaveNoPoint(Digits(amount));
      PartsOfPlain(Digits(amount));
    } else {
      var (whole, fraction) := Parts(amount, decimals);
      PartsExact(amount, decimals);
      TrimAroundPoint(whole, fraction);
      TrimmedExact(whole, fraction, amount, decimals);
    }
  }

  /** `s` is canonical and spells `amount / 10^decimals`. */
  predicate Exact(s: string, amount: nat, decimals: nat) {
    Canonical(s) && |Fraction(s)| <= decimals && Scaled(s, decimals) == amount
  }

  lemma TrimmedExact(whole: string, fraction: string, amount: nat, decimals: nat)
    requires AllDigits(whole) && AllDigits(fraction) && |fraction| == decimals && |whole| > 0
    requires whole[0] == '0' ==> |whole| == 1
    requires Shifted(Value(whole), decimals) + Value(fraction) == amount
    ensures var t := TrimEnd(fraction, '0'); Exact(if t == [] then whole else whole + "." + t, amount, decimals)
  {
    var t := TrimEnd(fraction, '0');
    DigitsHaveNoPoint(whole);
    TrimmedValue(fraction);
    PartsOfPlain(whole);
    PartsOfPointed(whole, t);
    ZeroShifted(decimals);
  }

  // ---------- equal outputs are equal values ----------

  lemma {:induction false} TenTimes(n: nat)
    requires n > 0
    ensures Digits(10 * n) == Digits(n) + "0"
  {
    assert 10 * n / 10 == n && 10 * n % 10 == 0;
  }

  /** One more digit and one more decimal add a zero after the point. */
  lemma PartsShift(amount: nat, decimals: nat)
    requires amount > 0
    ensures var (whole, fraction) := Parts(amount, decimals);
            Parts(10 * amount, decimals + 1) == if decimals == 0 then (Digits(amount), "0") else (whole, fraction + "0")
  {
    TenTimes(amount);
    ShiftedSplit(Digits(amount), decimals);
    assert |Digits(10 * amount)| == |Digits(amount)| + 1;
  }

  lemma ShiftedSplit(digits: string, decimals: nat)
    ensures |digits| > decimals ==>
      var point := |digits| - decimals;
      (digits + "0")[..point] == digits[..point] && (digits + "0")[point..] == digits[point..] + "0"
    ensures |digits| <= decimals ==>
      Zeros(decimals - |digits|) + (digits + "0") == (Zeros(decimals - |digits|) + digits) + "0"
    ensures digits[..|digits|] == digits && digits[|digits|..] + "0" == "0"
  {
  }

  lemma TrimOneZero(s: string)
    ensures TrimEnd(s + "0", '0') == TrimEnd(s, '0')
  {
    assert (s + "0")[..|s + "0"| - 1] == s;
  }

  /** One more digit and one more decimal print the same. */
  lemma OneMoreDecimal(amount: nat, decimals: nat)
    ensures Formatted(10 * amount, decimals + 1) == Formatted(amount, decimals)
  {
    if amount > 0 {
      PartsShift(amount, decimals);
      var (whole', fraction') := Parts(10 * amount, decimals + 1);
      PartsExact(10 * amount, decimals + 1);
      TrimAroundPoint(whole', fraction');
      if decimals > 0 {
        var (whole, fraction) := Parts(amount, decimals);
        PartsExact(amount, decimals);
        TrimAroundPoint(whole, fraction);
        TrimOneZero(fraction);
      } else {
        assert [] + "0" == "0";
        TrimOneZero([]);
      }
    }
  }

  ghost predicate Blind(format: (nat, nat) -> string) {
    forall a: nat, d: nat :: BlindAt(format, a, d)
  }

  ghost predicate BlindAt(format: (nat, nat) -> string, a: nat, d: nat) {
    format(10 * a, d + 1) == format(a, d)
  }

  /** What one more decimal leaves alone, any number of them does. */
  lemma {:induction false} MoreDecimals(format: (nat, nat) -> string, amount: nat, decimals: nat, k: nat)
    requires Blind(format)
    ensures format(Shifted(amount, k), decimals + k) == format(amount, decimals)
  {
    if k > 0 {
      MoreDecimals(format, amount, decimals, k - 1);
      assert BlindAt(format, Shifted(amount, k - 1), decimals + k - 1);
    }
  }

  function Formatter(): (nat, nat) -> string { (a: nat, d: nat) => Formatted(a, d) }

  lemma FormatterIsBlind()
    ensures Blind(Formatter())
  {
    var format := Formatter();
    forall a: nat, d: nat
      ensures BlindAt(format, a, d)
    {
      OneMoreDecimal(a, d);
    }
  }

  lemma AlignedFormat(a: nat, da: nat, db: nat, aligned: nat)
    requires da <= db && aligned == Shifted(a, db - da)
    ensures Formatter()(aligned, db) == Formatter()(a, da)
  {
    FormatterIsBlind();
    Aligned(Formatter(), a, da, db, aligned);
  }

  lemma Aligned(format: (nat, nat) -> string, a: nat, da: nat, db: nat, aligned: nat)
    requires Blind(format) && da <= db && aligned == Shifted(a, db - da)
    ensures format(aligned, db) == format(a, da)
  {
    MoreDecimals(format, a, da, db - da);
  }

  lemma FormattedInjective(a: nat, b: nat, decimals: nat)
    ensures Formatter()(a, decimals) == Formatter()(b, decimals) ==> a == b
  {
    FormattedExact(a, decimals);
    FormattedExact(b, decimals);
  }

  /** Two amounts print the same exactly when they are the same number: `a / 10^da == b / 10^db`. */
  lemma SameOutputIffSameValue(a: nat, da: nat, b: nat, db: nat)
    ensures Formatted(a, da) == Formatted(b, db) <==> a * Pow(10, db) == b * Pow(10, da)
  {
    ShiftedIsPower(a, db);
    ShiftedIsPower(b, da);
    if da <= db {
      SameOutputOrdered(a, da, b, db);
    } else {
      SameOutputOrdered(b, db, a, da);
    }
  }

  lemma SameOutputOrdered(a: nat, da: nat, b: nat, db: nat)
    requires da <= db
    ensures Formatter()(a, da) == Formatter()(b, db) <==> Shifted(a, db) == Shifted(b, da)
  {
    var aligned := Shifted(a, db - da);
    AlignedFormat(a, da, db, aligned);
    FormattedInjective(aligned, b, db);
    Align(Formatter(), a, da, b, db, aligned);
  }

  lemma Align(format: (nat, nat) -> string, a: nat, da: nat, b: nat, db: nat, aligned: nat)
    requires da <= db && aligned == Shifted(a, db - da)
    requires format(aligned, db) == format(a, da)
    requires format(aligned, db) == format(b, db) ==> aligned == b
    ensures format(a, da) == format(b, db) <==> Shifted(a, db) == Shifted(b, da)
  {
    ShiftedTwice(a, db - da, da);
    if Shifted(a, db) == Shifted(b, da) {
      ShiftedInjective(aligned, b, da);
    }
  }
}
