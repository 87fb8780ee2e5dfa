/**
 * Integers written as text: the digit values `parseInt` and `BigInt` read,
 * `toString(16)` on numbers and bigints, and `BigInt(string)` (the
 * ECMAScript StringToBigInt conversion).
 */
module JsNumeric {
  import opened Js
  import opened JsText

  function Pow(base: nat, k: nat): (v: nat) {
    if k == 0 then 1 else base * Pow(base, k - 1)
  }

  /** The value of a character as a digit of radix up to 36, letters in either case; 36 for a non-digit. */
  function DigitValue(c: char): (d: nat)
    ensures d <= 36
  {
    if '0' <= c <= '9' then c as int - '0' as int
    else if 'a' <= c <= 'z' then c as int - 'a' as int + 10
    else if 'A' <= c <= 'Z' then c as int - 'A' as int + 10
    else 36
  }

  predicate AllDigits(s: string, radix: nat) {
    forall i :: 0 <= i < |s| ==> DigitValue(s[i]) < radix
  }

  /** `[0-9a-fA-F]*` */
  predicate IsHexString(s: string) {
    AllDigits(s, 16)
  }

  /** The big-endian value of a run of digits (`parseInt(s, radix)` on a well-formed run). */
  function DigitsValue(s: string, radix: nat): (v: nat)
    requires AllDigits(s, radix)
    decreases |s|
  {
    if s == [] then 0 else DigitsValue(s[..|s| - 1], radix) * radix + DigitValue(s[|s| - 1])
  }

  /** The lower-case digit that `toString(16)` writes for `d`. */
  function HexChar(d: nat): (c: char)
    requires d < 16
    ensures DigitValue(c) == d && !('A' <= c <= 'Z')
  {
    if d < 10 then ('0' as int + d) as char else ('a' as int + d - 10) as char
  }

  /** `n.toString(16)` for a non-negative integer. */
  function NatToHex(n: nat): (s: string)
    decreases n
  {
    if n < 16 then [HexChar(n)] else NatToHex(n / 16) + [HexChar(n % 16)]
  }

  /** `toString(16)` on an integral number or a bigint: a minus sign, then the magnitude's digits. */
  function ToHexString(v: int): (h: string) {
    if v < 0 then "-" + NatToHex(-v) else NatToHex(v)
  }

  /** `toString(16)` writes lower-case hex digits that read back as the number. */
  lemma {:induction false} NatToHexDigits(n: nat)
    ensures IsHexString(NatToHex(n))
    ensures forall i :: 0 <= i < |NatToHex(n)| ==> !('A' <= NatToHex(n)[i] <= 'Z')
    ensures DigitsValue(NatToHex(n), 16) == n
    decreases n
  {
    var s := NatToHex(n);
    if n >= 16 {
      NatToHexDigits(n / 16);
      assert s[..|s| - 1] == NatToHex(n / 16);
    }
  }

  /** A non-negative number fits in `k` hex digits exactly when it is below 16^k. */
  lemma {:induction false} NatToHexLength(n: nat, k: nat)
    requires k >= 1
    ensures |NatToHex(n)| <= k <==> n < Pow(16, k)
    decreases n
  {
    PowPositive(16, k - 1);
    if n >= 16 {
      if k == 1 {
        assert |NatToHex(n)| >= 2;
      } else {
        NatToHexLength(n / 16, k - 1);
      }
    }
  }

  lemma {:induction false} PowPositive(base: nat, k: nat)
    requires base >= 1
    ensures Pow(base, k) >= 1
    decreases k
  {
    if k > 0 {
      PowPositive(base, k - 1);
    }
  }

  /** Leading zeros do not change the value of a run of digits. */
  lemma {:induction false} LeadingZeros(z: string, s: string, radix: nat)
    requires radix >= 1
    requires forall i :: 0 <= i < |z| ==> z[i] == '0'
    requires AllDigits(s, radix)
    ensures AllDigits(z + s, radix)
    ensures DigitsValue(z + s, radix) == DigitsValue(s, radix)
    decreases |s| + |z|
  {
    var t := z + s;
    if s != [] {
      assert t[..|t| - 1] == z + s[..|s| - 1];
      LeadingZeros(z, s[..|s| - 1], radix);
    } else if z != [] {
      assert t[..|t| - 1] == z[..|z| - 1] + s;
      LeadingZeros(z[..|z| - 1], s, radix);
    }
  }

  /** Two runs whose characters have the same digit values (for instance, that differ only in letter case) have the same value. */
  lemma {:induction false} SameDigitsSameValue(s: string, t: string, radix: nat)
    requires AllDigits(s, radix)
    requires |s| == |t| && forall i :: 0 <= i < |s| ==> DigitValue(s[i]) == DigitValue(t[i])
    ensures AllDigits(t, radix) && DigitsValue(t, radix) == DigitsValue(s, radix)
    decreases |s|
  {
    if s != [] {
      SameDigitsSameValue(s[..|s| - 1], t[..|t| - 1], radix);
    }
  }

  /** Parses a non-empty run of digits of `radix`, or throws SyntaxError. */
  function ParseDigits(d: string, radix: nat): (r: Result<int>)
    ensures r.Ok? <==> d != [] && AllDigits(d, radix)
  {
    if d != [] && AllDigits(d, radix) then Ok(DigitsValue(d, radix)) else Err(BigIntSyntax)
  }

  function Negate(r: Result<int>): (negated: Result<int>) {
    match r
    case Ok(v) => Ok(-v)
    case Err(e) => Err(e)
  }

  /**
   * `BigInt(s)` for a string: surrounding whitespace is ignored, the empty
   * string is 0, `0x`/`0X`, `0o`/`0O` and `0b`/`0B` introduce unsigned hex,
   * octal and binary digits, otherwise an optionally signed decimal run;
   * anything else is a SyntaxError.
   */
  function StringToBigInt(s: string): (r: Result<int>)
    ensures r.Err? ==> r.error == BigIntSyntax
  {
    var t := Trim(s);
    if t == [] then Ok(0)
    else if |t| >= 2 && t[0] == '0' && (t[1] == 'x' || t[1] == 'X') then ParseDigits(t[2..], 16)
    else if |t| >= 2 && t[0] == '0' && (t[1] == 'o' || t[1] == 'O') then ParseDigits(t[2..], 8)
    else if |t| >= 2 && t[0] == '0' && (t[1] == 'b' || t[1] == 'B') then ParseDigits(t[2..], 2)
    else if t[0] == '+' then ParseDigits(t[1..], 10)
    else if t[0] == '-' then Negate(ParseDigits(t[1..], 10))
    else ParseDigits(t, 10)
  }

  /** `0x`, `0X`, `0o`, `0O`, `0b` or `0B`: the prefixes that make `BigInt` read hex, octal or binary digits. */
  predicate HasRadixPrefix(t: string) {
    |t| >= 2 && t[0] == '0' && (t[1] == 'x' || t[1] == 'X' || t[1] == 'o' || t[1] == 'O' || t[1] == 'b' || t[1] == 'B')
  }

  /**
   * Without a radix prefix, `BigInt` reads only an optionally signed decimal
   * run: a trimmed string holding any other character (a letter, a '.', a
   * sign after the first place) is a SyntaxError.
   */
  lemma StringToBigIntRejects(s: string, i: nat)
    requires !HasRadixPrefix(Trim(s))
    requires i < |Trim(s)| && DigitValue(Trim(s)[i]) >= 10
    requires i == 0 ==> Trim(s)[0] != '+' && Trim(s)[0] != '-'
    ensures StringToBigInt(s) == Err(BigIntSyntax)
  {
    var t := Trim(s);
    if t[0] == '+' || t[0] == '-' {
      assert t[1..][i - 1] == t[i];
    }
  }

  /** A plain run of decimal digits converts to its decimal value. */
  lemma DecimalStringToBigInt(s: string)
    requires s != [] && AllDigits(s, 10)
    ensures StringToBigInt(s) == Ok(DigitsValue(s, 10))
  {
    assert DigitValue(s[0]) < 10 && DigitValue(s[|s| - 1]) < 10;
    TrimUntouched(s);
    assert |s| >= 2 ==> DigitValue(s[1]) < 10;
  }

  /** `0x` or `0X` followed by hex digits converts to the number the digits write. */
  lemma HexStringToBigInt(x: char, h: string)
    requires x == 'x' || x == 'X'
    requires h != [] && IsHexString(h)
    ensures StringToBigInt(['0', x] + h) == Ok(DigitsValue(h, 16))
  {
    var s := ['0', x] + h;
    assert s[|s| - 1] == h[|h| - 1];
    assert DigitValue(h[|h| - 1]) < 16;
    TrimUntouched(s);
    assert s[2..] == h;
  }

  /** `+` followed by decimal digits converts to their value. */
  lemma PlusDecimalStringToBigInt(d: string)
    requires d != [] && AllDigits(d, 10)
    ensures StringToBigInt("+" + d) == Ok(DigitsValue(d, 10))
  {
    assert DigitValue(d[|d| - 1]) < 10;
    var s := "+" + d;
    assert s[|s| - 1] == d[|d| - 1];
    TrimUntouched(s);
    assert s[1..] == d;
  }

  /** `-` followed by decimal digits converts to the negated value. */
  lemma MinusDecimalStringToBigInt(d: string)
    requires d != [] && AllDigits(d, 10)
    ensures StringToBigInt("-" + d) == Ok(-(DigitsValue(d, 10) as int))
  {
    assert DigitValue(d[|d| - 1]) < 10;
    var s := "-" + d;
    assert s[|s| - 1] == d[|d| - 1];
    TrimUntouched(s);
    assert s[1..] == d;
  }

  /** Whitespace only (the empty string included) converts to 0. */
  lemma BlankStringToBigInt(s: string)
    requires forall i :: 0 <= i < |s| ==> IsJsWhitespace(s[i])
    ensures StringToBigInt(s) == Ok(0)
  {
    TrimWhitespaceOnly(s);
  }
}
