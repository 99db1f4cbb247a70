/** Numerals and bytes: the C# `byte` and `int` value ranges, rendering a
    natural number in base 2 or 16 as `Convert.ToString(value, 2)` and the
    `X` format do, reading such a rendering back, and the bitwise AND of two
    naturals. */
module Digits {

  /** C# `byte`. */
  type byte = b: int | 0 <= b < 256

  /** C# `int`. */
  type int32 = x: int | -0x8000_0000 <= x < 0x8000_0000

  /** Unchecked C# `int` arithmetic: the result keeps the low 32 bits of the
      exact value, read as two's complement. */
  function Wrap32(x: int): (w: int32)
    ensures (w - x) % 0x1_0000_0000 == 0
    ensures -0x8000_0000 <= x < 0x8000_0000 ==> w == x
  {
    var low := x % 0x1_0000_0000;
    if low < 0x8000_0000 then low else low - 0x1_0000_0000
  }

  /** `b` to the power `n`; for a base of at least 2 it exceeds `n`, so a
      value always fits in some number of digits. */
  function Pow(b: nat, n: nat): (p: nat)
    ensures b > 0 ==> p > 0
    ensures b >= 2 ==> p > n
  {
    if n == 0 then 1
    else
      var q := Pow(b, n - 1);
      if b >= 2 then MulMono(2, b, q); b * q else b * q
  }

  /** The value of a digit character `0`-`9`, `A`-`F` (upper case, as the `X`
      format writes them), and 16 for any other character. */
  function CharValue(c: char): (d: nat)
    ensures d <= 16
  {
    if '0' <= c <= '9' then c as int - '0' as int
    else if 'A' <= c <= 'F' then c as int - 'A' as int + 10
    else 16
  }

  predicate IsDigit(c: char, base: nat)
  {
    CharValue(c) < base
  }

  predicate AllDigits(s: string, base: nat)
  {
    forall i :: 0 <= i < |s| ==> IsDigit(s[i], base)
  }

  /** The character of digit `d`; the inverse of `CharValue`. */
  function DigitChar(d: nat): (c: char)
    requires d < 16
    ensures CharValue(c) == d
  {
    if d < 10 then ('0' as int + d) as char else ('A' as int + d - 10) as char
  }

  /** Most significant digit first, no leading zeros, and "0" for zero. */
  function ToBase(v: nat, base: nat): (s: string)
    requires 2 <= base <= 16
    ensures |s| >= 1 && AllDigits(s, base)
    decreases v
  {
    if v < base then [DigitChar(v)]
    else ToBase(v / base, base) + [DigitChar(v % base)]
  }

  /** Reads digits, most significant first. */
  function Parse(s: string, base: nat): nat
    requires AllDigits(s, base)
  {
    if |s| == 0 then 0
    else Parse(s[..|s| - 1], base) * base + CharValue(s[|s| - 1])
  }

  /** Reading a rendering gives back the number. */
  lemma {:induction false} ParseToBase(v: nat, base: nat)
    requires 2 <= base <= 16
    ensures Parse(ToBase(v, base), base) == v
    decreases v
  {
    if v >= base {
      ParseToBase(v / base, base);
      ParseAppendDigit(ToBase(v / base, base), v % base, base);
      DivMod(v, base);
    }
  }

  /** Appending a digit multiplies by the base and adds the digit. */
  lemma ParseAppendDigit(prefix: string, d: nat, base: nat)
    requires 2 <= base <= 16 && d < base && AllDigits(prefix, base)
    ensures AllDigits(prefix + [DigitChar(d)], base)
    ensures Parse(prefix + [DigitChar(d)], base) == Parse(prefix, base) * base + d
  {
    var s := prefix + [DigitChar(d)];
    assert s[..|s| - 1] == prefix;
  }

  /** A rendering has two or more digits exactly when the number reaches the
      base. */
  lemma ToBaseLength(v: nat, base: nat)
    requires 2 <= base <= 16
    ensures |ToBase(v, base)| == 1 <==> v < base
  {
  }

  /** Leading zeros do not change the value read. */
  lemma {:induction false} ParseLeadingZeros(zeros: string, s: string, base: nat)
    requires 2 <= base <= 16
    requires forall i :: 0 <= i < |zeros| ==> zeros[i] == '0'
    requires AllDigits(s, base)
    ensures AllDigits(zeros + s, base)
    ensures Parse(zeros + s, base) == Parse(s, base)
    decreases |s|
  {
    if |s| == 0 {
      assert zeros + s == zeros;
      AllZeros(zeros, base);
    } else {
      var t := zeros + s;
      assert t[..|t| - 1] == zeros + s[..|s| - 1];
      ParseLeadingZeros(zeros, s[..|s| - 1], base);
    }
  }

  lemma {:induction false} AllZeros(zeros: string, base: nat)
    requires 2 <= base <= 16
    requires forall i :: 0 <= i < |zeros| ==> zeros[i] == '0'
    ensures AllDigits(zeros, base)
    ensures Parse(zeros, base) == 0
    decreases |zeros|
  {
    if |zeros| > 0 {
      AllZeros(zeros[..|zeros| - 1], base);
    }
  }

  /** `n` digits read at most `base^n - 1`. */
  lemma {:induction false} ParseBound(s: string, base: nat)
    requires 2 <= base <= 16 && AllDigits(s, base)
    ensures Parse(s, base) < Pow(base, |s|)
    decreases |s|
  {
    if |s| > 0 {
      var init := s[..|s| - 1];
      ParseBound(init, base);
      NextPlaceBound(Parse(init, base), Pow(base, |init|), base, CharValue(s[|s| - 1]));
    }
  }

  /** Splitting the digits at `i`: the value is the head's value shifted by
      the tail's length plus the tail's value. */
  lemma {:induction false} ParseSplit(s: string, i: nat, base: nat)
    requires 2 <= base <= 16 && AllDigits(s, base) && i <= |s|
    ensures Parse(s, base) == Parse(s[..i], base) * Pow(base, |s| - i) + Parse(s[i..], base)
    decreases |s|
  {
    if i < |s| {
      var init := s[..|s| - 1];
      ParseSplit(init, i, base);
      assert init[..i] == s[..i];
      assert s[i..][..|s[i..]| - 1] == init[i..];
      ShiftPlace(Parse(s[..i], base), Pow(base, |init| - i), Parse(init[i..], base), base);
    } else {
      assert s[..i] == s;
    }
  }

  /** The value of the leading `i` digits is the value divided by
      `base^(|s| - i)`, and the trailing digits give the remainder. */
  lemma DigitsDivMod(s: string, i: nat, base: nat)
    requires 2 <= base <= 16 && AllDigits(s, base) && i <= |s|
    ensures Parse(s, base) / Pow(base, |s| - i) == Parse(s[..i], base)
    ensures Parse(s, base) % Pow(base, |s| - i) == Parse(s[i..], base)
  {
    ParseSplit(s, i, base);
    ParseBound(s[i..], base);
    DivModUnique(Parse(s, base), Pow(base, |s| - i), Parse(s[..i], base), Parse(s[i..], base));
  }

  /** A rendering of length `n` is the shortest that fits: the number is
      below `base^n`, and (unless it is a single digit) at least
      `base^(n-1)`. */
  lemma ToBaseFits(v: nat, base: nat)
    requires 2 <= base <= 16
    ensures v < Pow(base, |ToBase(v, base)|)
  {
    ParseToBase(v, base);
    ParseBound(ToBase(v, base), base);
  }

  lemma {:induction false} ToBaseLeast(v: nat, base: nat)
    requires 2 <= base <= 16
    ensures |ToBase(v, base)| == 1 || Pow(base, |ToBase(v, base)| - 1) <= v
    decreases v
  {
    if v >= base {
      ToBaseLeast(v / base, base);
      assert |ToBase(v, base)| == |ToBase(v / base, base)| + 1;
      if |ToBase(v / base, base)| > 1 {
        ScaleUp(v, base, Pow(base, |ToBase(v / base, base)| - 1));
      }
    }
  }

  /** A number below `base^k` takes at most `k` digits. */
  lemma {:induction false} ToBaseShort(v: nat, base: nat, k: nat)
    requires 2 <= base <= 16 && 1 <= k && v < Pow(base, k)
    ensures |ToBase(v, base)| <= k
    decreases k
  {
    if v >= base && k > 1 {
      DivBelow(v, base, Pow(base, k - 1));
      ToBaseShort(v / base, base, k - 1);
    }
  }

  /** The other direction of `ParseToBase`: a digit string without leading
      zeros is the rendering of its value. */
  lemma {:induction false} ToBaseOfParse(s: string, base: nat)
    requires 2 <= base <= 16 && AllDigits(s, base) && |s| >= 1
    requires |s| > 1 ==> s[0] != '0'
    ensures ToBase(Parse(s, base), base) == s
    decreases |s|
  {
    CharOfValue(s[|s| - 1]);
    if |s| > 1 {
      var init := s[..|s| - 1];
      ToBaseOfParse(init, base);
      ParsePositive(init, base);
      ToBaseSnoc(Parse(init, base), CharValue(s[|s| - 1]), base);
      assert s == init + [s[|s| - 1]];
    }
  }

  /** A digit string that does not start with `0` has a positive value. */
  lemma {:induction false} ParsePositive(s: string, base: nat)
    requires 2 <= base <= 16 && AllDigits(s, base) && |s| >= 1 && s[0] != '0'
    ensures Parse(s, base) >= 1
    decreases |s|
  {
    if |s| > 1 {
      var init := s[..|s| - 1];
      ParsePositive(init, base);
      MulMono(1, Parse(init, base), base);
    } else {
      assert CharValue(s[0]) != 0;
    }
  }

  /** Rendering `w * base + d` appends digit `d` to the rendering of `w`. */
  lemma ToBaseSnoc(w: nat, d: nat, base: nat)
    requires 2 <= base <= 16 && w >= 1 && d < base
    ensures ToBase(w * base + d, base) == ToBase(w, base) + [DigitChar(d)]
  {
    DivModUnique(w * base + d, base, w, d);
    MulMono(1, w, base);
  }

  lemma ScaleUp(v: nat, base: nat, p: nat)
    requires base > 0 && p <= v / base
    ensures base * p <= v
  {
    DivMod(v, base);
    MulMono(p, v / base, base);
  }

  lemma CharOfValue(c: char)
    requires CharValue(c) < 16
    ensures DigitChar(CharValue(c)) == c
  {
  }

  /** A rendering of two or more digits does not start with `0`. */
  lemma {:induction false} ToBaseLeading(v: nat, base: nat)
    requires 2 <= base <= 16
    ensures |ToBase(v, base)| > 1 ==> ToBase(v, base)[0] != '0'
    decreases v
  {
    if v >= base {
      ToBaseLeading(v / base, base);
      DivMod(v, base);
      assert ToBase(v, base)[0] == ToBase(v / base, base)[0];
    }
  }

  /** Powers of two grow with the exponent. */
  lemma {:induction false} PowTwoMono(n: nat, m: nat)
    requires n <= m
    ensures Pow(2, n) <= Pow(2, m)
    decreases m
  {
    if n < m {
      PowTwoMono(n, m - 1);
    }
  }

  /** `2^s` is a multiple of 256 from `s = 8` on. */
  lemma {:induction false} PowTwoAboveByte(s: nat)
    requires s >= 8
    ensures Pow(2, s) == 256 * Pow(2, s - 8)
    decreases s
  {
    if s > 8 {
      PowTwoAboveByte(s - 1);
    } else {
      assert Pow(2, 8) == 256;
    }
  }

  /* ---------------- arithmetic steps ---------------- */

  lemma DivMod(a: nat, d: nat)
    requires d > 0
    ensures a == (a / d) * d + a % d
  {
  }

  lemma MulMono(a: int, b: int, d: nat)
    requires a <= b
    ensures a * d <= b * d
  {
  }

  lemma DivBelow(v: nat, d: nat, p: nat)
    requires d > 0 && v < d * p
    ensures v / d < p
  {
    DivMod(v, d);
    if v / d >= p {
      MulMono(p, v / d, d);
    }
  }

  lemma MulSucc(q: int, d: int)
    ensures (q + 1) * d == q * d + d
  {
  }

  /** Quotient and remainder are unique. */
  lemma DivModUnique(a: nat, d: nat, q: nat, r: nat)
    requires d > 0 && a == q * d + r && r < d
    ensures a / d == q && a % d == r
  {
    var q', r' := a / d, a % d;
    assert a == q' * d + r';
    if q' > q {
      MulMono(q + 1, q', d);
      MulSucc(q, d);
    } else if q' < q {
      MulMono(q' + 1, q, d);
      MulSucc(q', d);
    }
  }

  /** Appending a digit below `p <= q - 1` stays below `q * base`. */
  lemma NextPlaceBound(p: nat, q: nat, base: nat, d: nat)
    requires p < q && d < base
    ensures p * base + d < base * q
  {
    MulMono(p + 1, q, base);
    MulSucc(p, base);
  }

  lemma ShiftPlace(h: nat, p: nat, y: nat, base: nat)
    ensures (h * p + y) * base == h * (base * p) + y * base
  {
  }

  /* ---------------- bitwise AND ---------------- */

  /** `a & b` on non-negative numbers, bit by bit from the least
      significant. */
  function BitAnd(a: nat, b: nat): (r: nat)
    ensures r <= a
    decreases a
  {
    if a == 0 || b == 0 then 0
    else 2 * BitAnd(a / 2, b / 2) + (if a % 2 == 1 && b % 2 == 1 then 1 else 0)
  }

  /** Masking with `2^k - 1` keeps the low `k` bits. */
  lemma {:induction false} BitAndLowMask(a: nat, k: nat)
    ensures BitAnd(a, Pow(2, k) - 1) == a % Pow(2, k)
    decreases k
  {
    if k > 0 {
      BitAndLowMask(a / 2, k - 1);
      LowMaskStep(a, Pow(2, k - 1), Pow(2, k) - 1, a / 2);
    }
  }

  /** One bit of `BitAndLowMask`: from the mask `p - 1` on `a / 2` to the
      mask `2p - 1` on `a`. */
  lemma LowMaskStep(a: nat, p: nat, m: nat, half: nat)
    requires p > 0 && m == 2 * p - 1 && half == a / 2
    requires BitAnd(half, p - 1) == half % p
    ensures BitAnd(a, m) == a % (2 * p)
  {
    if a > 0 {
      LowMaskUnfold(a, m, p - 1, half);
      ModDouble(a, p, half);
      assert BitAnd(a, m) == 2 * (half % p) + a % 2;
    } else {
      ZeroMod(2 * p);
    }
  }

  lemma ZeroMod(d: nat)
    requires d > 0
    ensures 0 % d == 0
  {
    DivModUnique(0, d, 0, 0);
  }

  lemma LowMaskUnfold(a: nat, m: nat, lower: nat, half: nat)
    requires a > 0 && m == 2 * lower + 1 && half == a / 2
    ensures BitAnd(a, m) == 2 * BitAnd(half, lower) + a % 2
  {
    assert m / 2 == lower && m % 2 == 1;
  }

  /** `a mod 2p` from `a / 2 mod p` and the lowest bit. */
  lemma ModDouble(a: nat, p: nat, half: nat)
    requires p > 0 && half == a / 2
    ensures a % (2 * p) == 2 * (half % p) + a % 2
  {
    assert a == 2 * half + a % 2;
    DivMod(half, p);
    assert a == (half / p) * (2 * p) + (2 * (half % p) + a % 2);
    DivModUnique(a, 2 * p, half / p, 2 * (half % p) + a % 2);
  }
}
