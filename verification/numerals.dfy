/**
  Unsigned and signed numerals as `printf` writes them with `%d`, `%lu`,
  `%hu` (decimal) and `%hx` (lower-case hexadecimal): no leading zeros, a
  single `0` for zero, and a leading `-` for a negative `%d`. Parsers for the
  same forms let the rendering be read back by a round trip.
 */
module Numerals {
  import opened Wrappers

  /** The digit for value `d` (`0`-`9`, then `a`-`f`). */
  function DigitChar(d: nat): (c: char)
    requires d < 16
    ensures DigitValue(c) == Some(d)
  {
    if d < 10 then ('0' as int + d) as char else ('a' as int + d - 10) as char
  }

  /** The value of a digit character, if it is one. */
  function DigitValue(c: char): Option<nat>
  {
    if '0' <= c <= '9' then Some(c as int - '0' as int)
    else if 'a' <= c <= 'f' then Some(c as int - 'a' as int + 10)
    else None
  }

  predicate IsDigit(c: char, base: nat)
  {
    DigitValue(c).Some? && DigitValue(c).value < base
  }

  predicate AllDigits(s: string, base: nat)
  {
    forall i :: 0 <= i < |s| ==> IsDigit(s[i], base)
  }

  /** `n` written in `base`, most significant digit first. */
  function ToDigits(n: nat, base: nat): (s: string)
    requires 2 <= base <= 16
    ensures |s| > 0 && AllDigits(s, base)
    ensures |s| > 1 ==> s[0] != '0'
    decreases n
  {
    if n < base then [DigitChar(n)]
    else
      DivMod(n, base);
      ToDigits(n / base, base) + [DigitChar(n % base)]
  }

  lemma DivMod(n: nat, base: nat)
    requires 2 <= base <= n
    ensures 1 <= n / base < n && n % base < base
    ensures n / base * base + n % base == n
  {
  }

  /** The value of a string of digits in `base`. */
  function DigitsValue(s: string, base: nat): nat
    requires AllDigits(s, base)
  {
    if |s| == 0 then 0
    else DigitsValue(DropLast(s), base) * base + DigitValue(Last(s)).value
  }

  /** Reads a non-empty string of digits in `base`; anything else is refused. */
  function ParseDigits(s: string, base: nat): Option<nat>
  {
    if |s| > 0 && AllDigits(s, base) then Some(DigitsValue(s, base)) else None
  }

  /** `%hu`, `%lu`: unsigned decimal, without leading zeros. */
  function Dec(n: nat): (s: string)
    ensures |s| > 0 && AllDigits(s, 10)
    ensures |s| > 1 ==> s[0] != '0'
  {
    ToDigits(n, 10)
  }

  /** `%hx`: unsigned lower-case hexadecimal, without leading zeros. */
  function Hex(n: nat): (s: string)
    ensures |s| > 0 && AllDigits(s, 16)
    ensures |s| > 1 ==> s[0] != '0'
  {
    ToDigits(n, 16)
  }

  /** `%d`, `%ld`: signed decimal, with a minus sign exactly for negative
      numbers. */
  function IntText(i: int): (s: string)
    ensures |s| > 0
    ensures s[0] == '-' <==> i < 0
  {
    if i < 0 then "-" + Dec(-i) else Dec(i)
  }

  function ParseInt(s: string): Option<int>
  {
    if |s| > 0 && s[0] == '-' then
      match ParseDigits(s[1..], 10)
      case Some(n) => Some(-(n as int))
      case None => None
    else
      match ParseDigits(s, 10)
      case Some(n) => Some(n)
      case None => None
  }

  /** Characters a numeral is made of. */
  predicate NumeralChar(c: char)
  {
    c == '-' || IsDigit(c, 16)
  }

  /** Reading back what `ToDigits` wrote gives the number. */
  lemma {:induction false} ParseToDigits(n: nat, base: nat)
    requires 2 <= base <= 16
    ensures ParseDigits(ToDigits(n, base), base) == Some(n)
    decreases n
  {
    var s := ToDigits(n, base);
    if n < base {
      assert DropLast(s) == [];
      assert DigitsValue(s, base) == DigitsValue([], base) * base + n;
    } else {
      var q, r := n / base, n % base;
      DivMod(n, base);
      var t := ToDigits(q, base);
      ParseToDigits(q, base);
      assert s == t + [DigitChar(r)];
      assert DropLast(s) == t;
      assert DigitsValue(s, base) == DigitsValue(t, base) * base + r;
    }
  }

  lemma ParseDec(n: nat)
    ensures ParseDigits(Dec(n), 10) == Some(n)
  {
    ParseToDigits(n, 10);
  }

  lemma ParseHex(n: nat)
    ensures ParseDigits(Hex(n), 16) == Some(n)
  {
    ParseToDigits(n, 16);
  }

  /** Round trip for `%d`. */
  lemma ParseIntText(i: int)
    ensures ParseInt(IntText(i)) == Some(i)
  {
    if i < 0 {
      ParseDec(-i);
      assert IntText(i)[1..] == Dec(-i);
    } else {
      ParseDec(i);
      assert IsDigit(Dec(i)[0], 10);
    }
  }

  /** Numerals are made of digits and at most a minus sign. */
  lemma NumeralChars(i: int, n: nat)
    ensures forall k :: 0 <= k < |IntText(i)| ==> NumeralChar(IntText(i)[k])
    ensures forall k :: 0 <= k < |Dec(n)| ==> NumeralChar(Dec(n)[k])
    ensures forall k :: 0 <= k < |Hex(n)| ==> NumeralChar(Hex(n)[k])
  {
    if i < 0 {
      var s := Dec(-i);
      assert forall k :: 0 < k < |IntText(i)| ==> IntText(i)[k] == s[k - 1];
    }
  }
}
