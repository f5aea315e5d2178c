/** The part of C's integer semantics the interpreter depends on: the 32-bit `int`
    range, `atoi`, `printf("%d")`, division and remainder that truncate toward zero,
    and `(int)pow(l, r)`. Dafny's own `/` and `%` are Euclidean, so the C operators
    are defined here explicitly. */
module CInt {

  const INT_MIN: int := -0x8000_0000
  const INT_MAX: int := 0x7fff_ffff

  /** A value representable in a C `int`; anything outside is undefined behaviour. */
  predicate InInt(x: int) { INT_MIN <= x <= INT_MAX }

  function Abs(x: int): nat { if x < 0 then -x else x }

  // ----- digits -----

  predicate IsDigit(c: char) { '0' <= c <= '9' }

  predicate AllDigits(s: string) { forall i :: 0 <= i < |s| ==> IsDigit(s[i]) }

  function DigitValue(c: char): nat
    requires IsDigit(c)
  {
    (c as int) - ('0' as int)
  }

  function DigitChar(d: nat): (c: char)
    requires d < 10
    ensures IsDigit(c) && DigitValue(c) == d
  {
    (('0' as int) + d) as char
  }

  /** Value of a run of decimal digits, most significant digit first. */
  function DigitsValue(s: string): nat
    requires AllDigits(s)
  {
    if s == [] then 0 else DigitsValue(s[..|s| - 1]) * 10 + DigitValue(s[|s| - 1])
  }

  /** The longest prefix of `s` made of digits: where `atoi` stops reading. */
  function DigitPrefix(s: string): (d: string)
    ensures d <= s && AllDigits(d)
    ensures |d| == |s| || !IsDigit(s[|d|])
  {
    if s == [] || !IsDigit(s[0]) then [] else [s[0]] + DigitPrefix(s[1..])
  }

  // ----- atoi -----

  /** The characters `isspace` accepts in the C locale. */
  predicate IsCSpace(c: char)
  {
    c == ' ' || c == '\t' || c == '\n' || c == '\U{B}' || c == '\U{C}' || c == '\r'
  }

  function SkipCSpaces(s: string): (t: string)
    ensures |t| <= |s| && t == s[|s| - |t|..]
    ensures t == [] || !IsCSpace(t[0])
  {
    if s != [] && IsCSpace(s[0]) then SkipCSpaces(s[1..]) else s
  }

  /** `atoi(s)`: leading white space, an optional sign, then the longest run of
      digits; no digits gives 0. The result is the mathematical value; callers
      must keep it `InInt`, since overflow is undefined in C. */
  function Atoi(s: string): int
  {
    var t := SkipCSpaces(s);
    if t != [] && t[0] == '-' then -(DigitsValue(DigitPrefix(t[1..])) as int)
    else if t != [] && t[0] == '+' then DigitsValue(DigitPrefix(t[1..]))
    else DigitsValue(DigitPrefix(t))
  }

  // ----- printf("%d") -----

  /** The decimal digits of `n`, without leading zeros. */
  function NatDigits(n: nat): (s: string)
    ensures |s| > 0 && AllDigits(s)
    ensures s[0] == '0' ==> n == 0
  {
    if n < 10 then [DigitChar(n)] else NatDigits(n / 10) + [DigitChar(n % 10)]
  }

  /** The text `printf("%d", x)` writes. */
  function DecimalString(x: int): (s: string)
    ensures |s| > 0
  {
    if x < 0 then "-" + NatDigits(-x) else NatDigits(x)
  }

  lemma {:induction false} DigitPrefixOfDigits(s: string)
    requires AllDigits(s)
    ensures DigitPrefix(s) == s
  {
    if s != [] {
      DigitPrefixOfDigits(s[1..]);
    }
  }

  lemma {:induction false} NatDigitsValue(n: nat)
    ensures DigitsValue(NatDigits(n)) == n
  {
    if n >= 10 {
      NatDigitsValue(n / 10);
      var s := NatDigits(n);
      assert s[..|s| - 1] == NatDigits(n / 10);
    }
  }

  /** `atoi` reads back exactly what `printf("%d")` writes. */
  lemma {:induction false} AtoiOfDecimalString(x: int)
    ensures Atoi(DecimalString(x)) == x
  {
    if x < 0 {
      AtoiOfNegative(x);
    } else {
      AtoiOfDigits(NatDigits(x));
      NatDigitsValue(x);
    }
  }

  lemma AtoiOfNegative(x: int)
    requires x < 0
    ensures Atoi(DecimalString(x)) == x
  {
    var d := NatDigits(-x);
    NatDigitsValue(-x);
    DigitPrefixOfDigits(d);
    var s := DecimalString(x);
    assert s == ['-'] + d;
    assert SkipCSpaces(s) == s;
    assert s[1..] == d;
  }

  /** On a plain run of digits, as the tokenizer produces for a number, `atoi` is
      the value of those digits. */
  lemma AtoiOfDigits(s: string)
    requires AllDigits(s)
    ensures Atoi(s) == DigitsValue(s)
  {
    DigitPrefixOfDigits(s);
    if s != [] {
      assert !IsCSpace(s[0]);
    }
  }

  // ----- division and remainder -----

  /** C's `l / r`: the quotient truncated toward zero. */
  function CDiv(l: int, r: int): int
    requires r != 0
  {
    var q := Abs(l) / Abs(r);
    if (l < 0) != (r < 0) then -q else q
  }

  /** C's `l % r`: the remainder takes the sign of the dividend. */
  function CRem(l: int, r: int): int
    requires r != 0
  {
    var m := Abs(l) % Abs(r);
    if l < 0 then -m else m
  }

  /** The rules of section 6.5.5 of the C standard, in three parts. First,
      `(l / r) * r + l % r == l`. */
  lemma DivisionIdentity(l: int, r: int)
    requires r != 0
    ensures CDiv(l, r) * r + CRem(l, r) == l
  {
    var a: int, b: int := Abs(l), Abs(r);
    var q: int, m: int := a / b, a % b;
    var p: int := q * b;
    assert a == p + m && 0 <= m < b && 0 <= p && 0 <= q;
    QuotientTimesDivisor(l, r);
  }

  /** The remainder is smaller than the divisor and never has the opposite sign
      to the dividend. */
  lemma RemainderBounds(l: int, r: int)
    requires r != 0
    ensures Abs(CRem(l, r)) < Abs(r)
    ensures CRem(l, r) == 0 || ((CRem(l, r) < 0) == (l < 0))
  {
    var a: int, b: int := Abs(l), Abs(r);
    var q: int, m: int := a / b, a % b;
    var p: int := q * b;
    assert a == p + m && 0 <= m < b && 0 <= p && 0 <= q;
    QuotientTimesDivisor(l, r);
  }

  /** The quotient is truncated toward zero: it never overshoots the dividend
      and is negative exactly when the operands' signs differ. */
  lemma QuotientTowardZero(l: int, r: int)
    requires r != 0
    ensures Abs(CDiv(l, r) * r) <= Abs(l)
    ensures CDiv(l, r) == 0 || ((CDiv(l, r) < 0) == ((l < 0) != (r < 0)))
  {
    var a: int, b: int := Abs(l), Abs(r);
    var q: int, m: int := a / b, a % b;
    var p: int := q * b;
    assert a == p + m && 0 <= m < b && 0 <= p && 0 <= q;
    QuotientTimesDivisor(l, r);
  }

  lemma QuotientTimesDivisor(l: int, r: int)
    requires r != 0
    ensures var p := (Abs(l) / Abs(r)) * Abs(r); CDiv(l, r) * r == if l < 0 then -p else p
  {
    var q: int, b: int := Abs(l) / Abs(r), Abs(r);
    if (l < 0) != (r < 0) {
      assert CDiv(l, r) == -q;
    } else {
      assert CDiv(l, r) == q;
    }
    if r < 0 {
      assert r == -b;
    } else {
      assert r == b;
    }
  }

  /** A quotient of C ints is a C int, except for `INT_MIN / -1`, the one
      overflow section 6.5.5 leaves undefined. */
  lemma QuotientInRange(l: int, r: int)
    requires InInt(l) && InInt(r) && r != 0 && !(l == INT_MIN && r == -1)
    ensures InInt(CDiv(l, r))
  {
    var a: int, b: int := Abs(l), Abs(r);
    var q: int := a / b;
    QuotientBelowDividend(a, b);
    if b == 1 {
      assert q == a;
    }
  }

  /** A quotient of naturals is at most the dividend, and at most half of it
      when the divisor is at least 2. */
  lemma QuotientBelowDividend(a: nat, b: nat)
    requires b > 0
    ensures a / b <= a && (b == 1 ==> a / b == a) && (b >= 2 ==> 2 * (a / b) <= a)
  {
    var q: nat, m: nat := a / b, a % b;
    assert a == q * b + m;
    var c: nat := b - 1;
    assert q * b == q + q * c;
    if b >= 2 {
      var d: nat := b - 2;
      assert q * b == 2 * q + q * d;
    }
  }

  /** Where C and Dafny disagree: `-7 / 2` is -3 in C and -4 in Dafny. */
  lemma NegativeDivisionTruncates()
    ensures CDiv(-7, 2) == -3 && CRem(-7, 2) == -1
    ensures -7 / 2 == -4 && -7 % 2 == 1
  {
  }

  // ----- exponentiation -----

  function Pow(b: int, e: nat): int
  {
    if e == 0 then 1 else b * Pow(b, e - 1)
  }

  /** `pow(0, r)` with `r < 0` is infinite, and converting it to `int` is undefined. */
  predicate PowDefined(l: int, r: int) { !(l == 0 && r < 0) }

  /** `(int)pow(l, r)` for integer operands whose result is an exact `int`:
      a non-negative exponent gives the integer power; a negative one gives a
      magnitude below 1, which truncates to 0, except for bases 1 and -1. */
  function CPow(l: int, r: int): int
    requires PowDefined(l, r)
  {
    if r >= 0 then Pow(l, r)
    else if l == 1 then 1
    else if l == -1 then (if r % 2 == 0 then 1 else -1)
    else 0
  }

  lemma {:induction false} PowAdd(b: int, m: nat, n: nat)
    ensures Pow(b, m + n) == Pow(b, m) * Pow(b, n)
  {
    if m > 0 {
      PowAdd(b, m - 1, n);
    }
  }

  /** Exponentiation does not associate: `(b ** m) ** n` is `b ** (m * n)`. */
  lemma {:induction false} PowPow(b: int, m: nat, n: nat)
    ensures Pow(Pow(b, m), n) == Pow(b, m * n)
  {
    if n > 0 {
      PowPow(b, m, n - 1);
      PowAdd(b, m, m * (n - 1));
    }
  }
}
