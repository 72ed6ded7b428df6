/**
 * Python's integer reading `int(s, base)` and writing `str(n)`, `f"{n:o}"`,
 * `f"{n:08x}"`, for the bases the converter uses, on ASCII digits only.
 */
module Numerals {
  import opened Text

  /** The bases in play: octal, decimal and hexadecimal. */
  predicate IsBase(b: nat) {
    b == 8 || b == 10 || b == 16
  }

  /** The value of a digit character in any base up to 16, letters in
      either case as `int()` accepts them; 16 for every other character. */
  function DigitValue(c: char): (d: nat)
    ensures d <= 16
    ensures d < 10 <==> IsDigit(c)
  {
    if '0' <= c <= '9' then c as int - '0' as int
    else if 'a' <= c <= 'f' then c as int - 'a' as int + 10
    else if 'A' <= c <= 'F' then c as int - 'A' as int + 10
    else 16
  }

  /** The lower-case digit character of value `d`. */
  function DigitChar(d: nat): (c: char)
    requires d < 16
    ensures DigitValue(c) == d
    ensures c != '.' && c != 'x' && c != ':'
    ensures d == 0 <==> c == '0'
  {
    if d < 10 then ('0' as int + d) as char else ('a' as int + d - 10) as char
  }

  lemma DigitCharOfValue(c: char)
    requires IsDigit(c) || 'a' <= c <= 'f'
    ensures DigitValue(c) < 16 && DigitChar(DigitValue(c)) == c
  {
  }

  /** Every character of `s` is a digit of `base`. */
  predicate IsDigitsIn(s: string, base: nat) {
    forall i :: 0 <= i < |s| ==> DigitValue(s[i]) < base
  }

  /** Every character is a lower-case hexadecimal digit. */
  predicate IsLowerHex(s: string) {
    forall i :: 0 <= i < |s| ==> IsDigit(s[i]) || 'a' <= s[i] <= 'f'
  }

  /** A numeral with no superfluous leading zero, as `str()` and `format()`
      write them. */
  predicate IsCanonical(s: string) {
    |s| > 0 && (s[0] == '0' ==> |s| == 1)
  }

  /** `v * base`, one case per base, so that every product has a constant factor. */
  function Shift(v: nat, base: nat): nat
    requires IsBase(base)
  {
    if base == 8 then v * 8 else if base == 10 then v * 10 else v * 16
  }

  /** `n // base`. */
  function Quot(n: nat, base: nat): nat
    requires IsBase(base)
  {
    if base == 8 then n / 8 else if base == 10 then n / 10 else n / 16
  }

  /** `n % base`. */
  function Rem(n: nat, base: nat): (d: nat)
    requires IsBase(base)
    ensures d < base
  {
    if base == 8 then n % 8 else if base == 10 then n % 10 else n % 16
  }

  /** `int(s, base)` for a string of digits of that base: positional value,
      most significant digit first, leading zeros allowed. */
  function ValueIn(s: string, base: nat): nat
    requires IsBase(base) && IsDigitsIn(s, base)
    decreases |s|
  {
    if |s| == 0 then 0 else Shift(ValueIn(s[..|s| - 1], base), base) + DigitValue(s[|s| - 1])
  }

  /** `base ** k`. */
  function Pow(base: nat, k: nat): nat
    requires IsBase(base)
  {
    if k == 0 then 1 else Shift(Pow(base, k - 1), base)
  }

  /** `n` written in `base` with lower-case digits and no leading zero. */
  function Render(n: nat, base: nat): (s: string)
    requires IsBase(base)
    ensures IsDigitsIn(s, base) && IsLowerHex(s) && NoDot(s)
    ensures IsCanonical(s)
    decreases n
  {
    if n < base then [DigitChar(n)] else Render(Quot(n, base), base) + [DigitChar(Rem(n, base))]
  }

  /** Decimal digits in the sense of `Text` are the digits of base 10. */
  lemma DecimalDigits(s: string)
    ensures IsDigits(s) <==> IsDigitsIn(s, 10)
  {
    assert forall i :: 0 <= i < |s| ==> (IsDigit(s[i]) <==> DigitValue(s[i]) < 10);
  }

  /** `str(n)`. */
  function Decimal(n: nat): (s: string)
    ensures IsNumeral(s) && IsCanonical(s) && NoDot(s) && IsDigitsIn(s, 10)
  {
    var s := Render(n, 10);
    assert forall i :: 0 <= i < |s| ==> DigitValue(s[i]) < 10;
    s
  }

  /** Division by a base undoes a digit appended at the right. */
  lemma DivModDigit(v: nat, d: nat, base: nat)
    requires IsBase(base) && d < base
    ensures Quot(Shift(v, base) + d, base) == v && Rem(Shift(v, base) + d, base) == d
    ensures v >= 1 ==> Shift(v, base) + d >= base
  {
  }

  /** A number is its quotient by the base followed by its last digit. */
  lemma DivModSplit(n: nat, base: nat)
    requires IsBase(base)
    ensures Shift(Quot(n, base), base) + Rem(n, base) == n
    ensures Quot(n, base) < n || n == 0
  {
  }

  /** The quotient is below `p` exactly when the number is below `base * p`. */
  lemma DivBound(n: nat, base: nat, p: nat)
    requires IsBase(base)
    ensures Quot(n, base) < p <==> n < Shift(p, base)
  {
  }

  lemma ValueAppend(s: string, c: char, base: nat)
    requires IsBase(base) && IsDigitsIn(s, base) && DigitValue(c) < base
    ensures IsDigitsIn(s + [c], base)
    ensures ValueIn(s + [c], base) == Shift(ValueIn(s, base), base) + DigitValue(c)
  {
    assert (s + [c])[..|s|] == s;
  }

  /** Reading back what was written gives the number: `int(f"{n:…}", base) == n`. */
  lemma {:induction false} ValueOfRender(n: nat, base: nat)
    requires IsBase(base)
    ensures ValueIn(Render(n, base), base) == n
    decreases n
  {
    if n >= base {
      DivModSplit(n, base);
      ValueOfRender(Quot(n, base), base);
      ValueAppend(Render(Quot(n, base), base), DigitChar(Rem(n, base)), base);
    }
  }

  /** Writing back what was read gives the text, when the text is lower-case
      and has no leading zero. */
  lemma {:induction false} RenderOfValue(s: string, base: nat)
    requires IsBase(base) && IsDigitsIn(s, base) && IsLowerHex(s) && IsCanonical(s)
    ensures Render(ValueIn(s, base), base) == s
    decreases |s|
  {
    if |s| == 1 {
      RenderOfDigit(s, base);
    } else {
      var init := s[..|s| - 1];
      assert init[0] == s[0] != '0';
      RenderOfValue(init, base);
      RenderStep(s, base);
    }
  }

  /** A single lower-case digit is rendered as itself. */
  lemma RenderOfDigit(s: string, base: nat)
    requires IsBase(base) && IsDigitsIn(s, base) && IsLowerHex(s) && |s| == 1
    ensures Render(ValueIn(s, base), base) == s
  {
    assert ValueIn(s[..0], base) == 0;
    DigitCharOfValue(s[0]);
  }

  /** Rendering the value of a canonical numeral of two or more digits
      appends its last digit to the rendering of the rest. */
  lemma RenderStep(s: string, base: nat)
    requires IsBase(base) && IsDigitsIn(s, base) && IsLowerHex(s) && |s| >= 2 && s[0] != '0'
    requires Render(ValueIn(s[..|s| - 1], base), base) == s[..|s| - 1]
    ensures Render(ValueIn(s, base), base) == s
  {
    var init, last := s[..|s| - 1], s[|s| - 1];
    var w := ValueIn(init, base);
    assert init[0] == s[0];
    ValuePositive(init, base);
    assert ValueIn(s, base) == Shift(w, base) + DigitValue(last);
    RenderSnoc(w, init, last, base);
    LastSplit(s);
  }

  /** A non-empty sequence is its front followed by its last element. */
  lemma LastSplit<T>(s: seq<T>)
    requires |s| >= 1
    ensures s == s[..|s| - 1] + [s[|s| - 1]]
  {
  }

  /** A digit appended to the rendering of a positive number renders the
      number with that digit appended. */
  lemma RenderSnoc(w: nat, init: string, last: char, base: nat)
    requires IsBase(base) && w >= 1 && Render(w, base) == init
    requires DigitValue(last) < base && (IsDigit(last) || 'a' <= last <= 'f')
    ensures Render(Shift(w, base) + DigitValue(last), base) == init + [last]
  {
    RenderAppend(Shift(w, base) + DigitValue(last), w, DigitValue(last), base);
    DigitCharOfValue(last);
  }

  /** Rendering `w` followed by the digit `d` appends `d`'s character to the
      rendering of `w`. */
  lemma RenderAppend(v: nat, w: nat, d: nat, base: nat)
    requires IsBase(base) && d < base && w >= 1 && v == Shift(w, base) + d
    ensures Render(v, base) == Render(w, base) + [DigitChar(d)]
  {
    DivModDigit(w, d, base);
  }

  /** A numeral whose first digit is not zero has a non-zero value. */
  lemma {:induction false} ValuePositive(s: string, base: nat)
    requires IsBase(base) && IsDigitsIn(s, base) && |s| > 0 && s[0] != '0'
    ensures ValueIn(s, base) >= 1
    decreases |s|
  {
    if |s| > 1 {
      ValuePositive(s[..|s| - 1], base);
    } else {
      assert DigitValue(s[0]) != 0;
    }
  }

  /** A numeral has at most `k` digits exactly when its value is below `base^k`. */
  lemma {:induction false} RenderLength(n: nat, base: nat, k: nat)
    requires IsBase(base) && k >= 1
    ensures |Render(n, base)| <= k <==> n < Pow(base, k)
    decreases n
  {
    PowAtLeastBase(base, k);
    if n >= base {
      if k == 1 {
        assert |Render(n, base)| >= 2;
      } else {
        RenderLength(Quot(n, base), base, k - 1);
        DivBound(n, base, Pow(base, k - 1));
      }
    }
  }

  lemma {:induction false} PowAtLeastBase(base: nat, k: nat)
    requires IsBase(base) && k >= 1
    ensures Pow(base, k) >= base
  {
    if k > 1 {
      PowAtLeastBase(base, k - 1);
    }
  }

  /** Zeros in front of a numeral leave its value unchanged. */
  lemma {:induction false} ValueZeroPrefix(z: string, s: string, base: nat)
    requires IsBase(base) && IsDigitsIn(s, base)
    requires forall i :: 0 <= i < |z| ==> z[i] == '0'
    ensures IsDigitsIn(z + s, base) && ValueIn(z + s, base) == ValueIn(s, base)
    decreases |s|
  {
    if |s| == 0 {
      assert z + s == z;
      ValueOfZeros(z, base);
    } else {
      var init := s[..|s| - 1];
      assert z + s == (z + init) + [s[|s| - 1]];
      ValueZeroPrefix(z, init, base);
      ValueAppend(z + init, s[|s| - 1], base);
    }
  }

  lemma {:induction false} ValueOfZeros(z: string, base: nat)
    requires IsBase(base)
    requires forall i :: 0 <= i < |z| ==> z[i] == '0'
    ensures IsDigitsIn(z, base) && ValueIn(z, base) == 0
    decreases |z|
  {
    if |z| > 0 {
      ValueOfZeros(z[..|z| - 1], base);
    }
  }

  /** `s` left-padded with '0' to at least `width` characters. */
  function PadZeros(s: string, width: nat): (r: string)
  {
    if |s| >= width then s else seq(width - |s|, _ => '0') + s
  }

  /** `f"{n:08x}"` for a 32-bit value: exactly eight lower-case hexadecimal
      digits whose value is `n`. */
  function Hex8(n: nat): (r: string)
    requires n < 0x1_0000_0000
    ensures |r| == 8 && IsLowerHex(r) && IsDigitsIn(r, 16)
    ensures ValueIn(r, 16) == n
  {
    var h := Render(n, 16);
    assert Pow(16, 8) == 0x1_0000_0000;
    RenderLength(n, 16, 8);
    ValueOfRender(n, 16);
    var z := seq(8 - |h|, _ => '0');
    ValueZeroPrefix(z, h, 16);
    assert PadZeros(h, 8) == z + h;
    PadZeros(h, 8)
  }
}
