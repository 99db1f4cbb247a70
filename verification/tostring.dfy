/** `ToStringExt`: the binary and hexadecimal renderings of a byte.

    `Convert.ToString(value, 2)` is `ToBase(value, 2)`: binary digits, most
    significant first, and "0" for zero. The composite format item `{0:Xn}`
    is the upper-case hexadecimal rendering padded with zeros on the left to
    at least `n` digits. */
module ToStringExt {
  import opened Wrappers
  import opened Digits

  function Max(a: int, b: int): (m: int)
    ensures m >= a && m >= b && (m == a || m == b)
  {
    if a < b then b else a
  }

  /** `n` copies of `c`. */
  function Repeat(c: char, n: nat): (s: string)
    ensures |s| == n
    ensures forall i :: 0 <= i < n ==> s[i] == c
  {
    if n == 0 then [] else [c] + Repeat(c, n - 1)
  }

  /** `String.PadLeft(totalWidth, paddingChar)`: `s` right-aligned in a field
      of `totalWidth` characters, filled with `c` on the left; a negative
      width throws `ArgumentOutOfRangeException`. */
  function PadLeft(s: string, totalWidth: int32, c: char): (r: Result<string>)
    ensures r.Failure? <==> totalWidth < 0
    ensures r.Success? ==> |r.value| == Max(|s|, totalWidth)
    ensures r.Success? ==> r.value[|r.value| - |s|..] == s
    ensures r.Success? ==> forall i :: 0 <= i < |r.value| - |s| ==> r.value[i] == c
  {
    if totalWidth < 0 then Failure
    else if totalWidth <= |s| then Success(s)
    else Success(Repeat(c, totalWidth - |s|) + s)
  }

  /** The zero-padded rendering of `value` reads back as `value`. */
  lemma PaddedDigits(value: nat, width: int32, base: nat)
    requires 2 <= base <= 16 && width >= 0
    ensures AllDigits(PadLeft(ToBase(value, base), width, '0').value, base)
    ensures Parse(PadLeft(ToBase(value, base), width, '0').value, base) == value
  {
    ParseToBase(value, base);
    PadLeftKeepsValue(ToBase(value, base), width, base);
  }

  lemma PadLeftKeepsValue(s: string, totalWidth: int32, base: nat)
    requires 2 <= base <= 16 && AllDigits(s, base) && totalWidth >= 0
    ensures AllDigits(PadLeft(s, totalWidth, '0').value, base)
    ensures Parse(PadLeft(s, totalWidth, '0').value, base) == Parse(s, base)
  {
    var r := PadLeft(s, totalWidth, '0').value;
    var zeros := r[..|r| - |s|];
    assert r == zeros + s;
    ParseLeadingZeros(zeros, s, base);
  }

  /** Number of binary digits of `value`, the length of
      `Convert.ToString(value, 2)`. */
  function BitLength(value: nat): nat
  {
    |ToBase(value, 2)|
  }

  /** The bit length is the least `n >= 1` with `value < 2^n`; a byte has at
      most 8 bits. */
  lemma BitLengthIsLeast(value: nat)
    ensures 1 <= BitLength(value)
    ensures value < Pow(2, BitLength(value))
    ensures BitLength(value) == 1 || Pow(2, BitLength(value) - 1) <= value
    ensures value < 256 ==> BitLength(value) <= 8
  {
    ToBaseFits(value, 2);
    ToBaseLeast(value, 2);
    if value < 256 {
      ByteBits(value);
    }
  }

  lemma ByteBits(value: nat)
    requires value < 256
    ensures |ToBase(value, 2)| <= 8
  {
    assert Pow(2, 8) == 256;
    ToBaseShort(value, 2, 8);
  }

  /** Characters the prefix takes up. */
  function PrefixLength(prefixed: bool): nat
  {
    if prefixed then 2 else 0
  }

  lemma PrefixSplit(prefix: string, rest: string)
    ensures (prefix + rest)[..|prefix|] == prefix
    ensures (prefix + rest)[|prefix|..] == rest
  {
  }

  /** `value.ToBinaryString(with_0b, length)`. */
  function ToBinaryString(value: byte, with0b: bool, length: int32 := 0): (r: Result<string>)
    ensures r.Failure? <==> length < 0
    ensures r.Success? ==> |r.value| == PrefixLength(with0b) + Max(BitLength(value), length)
    ensures r.Success? && with0b ==> r.value[..2] == "0b"
    ensures r.Success? ==> AllDigits(r.value[PrefixLength(with0b)..], 2)
    ensures r.Success? ==> Parse(r.value[PrefixLength(with0b)..], 2) == value
  {
    var binary :- PadLeft(ToBase(value, 2), length, '0');
    PaddedDigits(value, length, 2);
    var prefix := if with0b then "0b" else "";
    PrefixSplit(prefix, binary);
    Success(prefix + binary)
  }

  /** The prefixed rendering is `0b` followed by exactly the unprefixed
      one. */
  lemma BinaryStringPrefixed(value: byte, length: int32)
    requires length >= 0
    ensures ToBinaryString(value, true, length).value
         == "0b" + ToBinaryString(value, false, length).value
  {
  }

  /** Without padding the rendering has no leading zero (bar "0" itself), so
      it is the only such string with that value. */
  lemma BinaryStringUnique(value: byte, s: string)
    requires AllDigits(s, 2) && |s| >= 1 && (|s| > 1 ==> s[0] != '0')
    requires Parse(s, 2) == value
    ensures ToBinaryString(value, false).value == s
  {
    ToBaseOfParse(s, 2);
  }

  /** Number of hexadecimal digits of `value` without padding. */
  function HexLength(value: nat): nat
  {
    |ToBase(value, 16)|
  }

  lemma HexLengthOfByte(value: byte)
    ensures 1 <= HexLength(value) <= 2
    ensures HexLength(value) == 1 <==> value < 16
  {
    assert Pow(16, 2) == 256;
    ToBaseShort(value, 16, 2);
  }

  /** `value.ToHexString(with_0x, length)`.

      With the prefix the format is `X` followed by the decimal `length`;
      a negative `length` makes that a custom numeric format, which is not
      modelled and gives `Failure`. Without the prefix the format is always
      `X2` and `length` is ignored. */
  function ToHexString(value: byte, with0x: bool, length: int32 := 0): (r: Result<string>)
    ensures r.Failure? <==> with0x && length < 0
    ensures r.Success? ==> |r.value| == if with0x then 2 + Max(HexLength(value), length) else 2
    ensures r.Success? && with0x ==> r.value[..2] == "0x"
    ensures r.Success? ==> AllDigits(r.value[PrefixLength(with0x)..], 16)
    ensures r.Success? ==> Parse(r.value[PrefixLength(with0x)..], 16) == value
  {
    HexLengthOfByte(value);
    var width := if with0x then length else 2;
    var hex :- PadLeft(ToBase(value, 16), width, '0');
    PaddedDigits(value, width, 16);
    var prefix := if with0x then "0x" else "";
    PrefixSplit(prefix, hex);
    Success(prefix + hex)
  }

  /** With the prefix there are at least `max(length, 1)` digits. */
  lemma HexStringWidth(value: byte, length: int32)
    requires length >= 0
    ensures |ToHexString(value, true, length).value| - 2 >= Max(length, 1)
  {
    HexLengthOfByte(value);
  }
}
