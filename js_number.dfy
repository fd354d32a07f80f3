/**
  * The two JavaScript number conversions the forms rely on: the global `parseInt` with its radix
  * left undefined (section 19.2.5 of ECMA-262), which the range form applies to the text of its
  * page inputs, and `Number.prototype.toString` on integers (section 6.1.6.1.20 of ECMA-262), which
  * the request builder uses to send page numbers and the split-pages form uses for its toast count.
  */
module JsNumber {

  /** A number as the forms see it: NaN or an integer. Negative zero is `Int(0)`: it is falsy and
      compares like zero, which is all the forms ask of it. */
  datatype Num = NaN | Int(value: int)

  /** JavaScript truthiness of a number: NaN and zero are falsy, every other number is truthy. */
  predicate Truthy(n: Num)
  {
    n.Int? && n.value != 0
  }

  /** StrWhiteSpaceChar (section 7.1.4.1 of ECMA-262): the WhiteSpace and LineTerminator code points,
      with the space separators of Unicode category Zs written out. */
  predicate IsStrWhiteSpace(c: char)
  {
    c == '\t' || c == '\U{000B}' || c == '\U{000C}' || c == ' ' || c == '\U{00A0}' || c == '\U{FEFF}' ||
    c == '\n' || c == '\r' || c == '\U{2028}' || c == '\U{2029}' ||
    c == '\U{1680}' || ('\U{2000}' <= c <= '\U{200A}') || c == '\U{202F}' || c == '\U{205F}' || c == '\U{3000}'
  }

  predicate IsDecimalDigit(c: char)
  {
    '0' <= c <= '9'
  }

  /** The value of `c` as a digit of a radix up to 36 (`0`-`9`, then `a`-`z` or `A`-`Z`), or 36 when
      `c` is not a digit of any radix. */
  function DigitValue(c: char): (d: nat)
    ensures d <= 36
    ensures d < 10 <==> IsDecimalDigit(c)
  {
    if '0' <= c <= '9' then c as int - '0' as int
    else if 'a' <= c <= 'z' then c as int - 'a' as int + 10
    else if 'A' <= c <= 'Z' then c as int - 'A' as int + 10
    else 36
  }

  predicate IsRadixDigit(c: char, radix: nat)
  {
    DigitValue(c) < radix
  }

  /** The string with its leading white space removed (step 2 of parseInt). */
  function TrimStart(s: string): (r: string)
    ensures |r| <= |s|
  {
    if s != [] && IsStrWhiteSpace(s[0]) then TrimStart(s[1..]) else s
  }

  /** TrimStart removes exactly the longest prefix of white space. */
  lemma {:induction false} TrimStartRemovesLeadingSpace(s: string)
    ensures TrimStart(s) == s[|s| - |TrimStart(s)|..]
    ensures forall i :: 0 <= i < |s| - |TrimStart(s)| ==> IsStrWhiteSpace(s[i])
    ensures TrimStart(s) != [] ==> !IsStrWhiteSpace(TrimStart(s)[0])
  {
    if s != [] && IsStrWhiteSpace(s[0]) {
      TrimStartRemovesLeadingSpace(s[1..]);
    }
  }

  /** The length of the longest prefix of `s` made of radix-`radix` digits (step 11 of parseInt). */
  function DigitPrefixLength(s: string, radix: nat): (n: nat)
    ensures n <= |s|
  {
    if s == [] || !IsRadixDigit(s[0], radix) then 0 else 1 + DigitPrefixLength(s[1..], radix)
  }

  /** DigitPrefixLength measures the longest run of digits: all before it are digits, the
      character at it is not. */
  lemma {:induction false} DigitPrefixIsLongest(s: string, radix: nat)
    ensures forall i :: 0 <= i < DigitPrefixLength(s, radix) ==> IsRadixDigit(s[i], radix)
    ensures DigitPrefixLength(s, radix) < |s| ==> !IsRadixDigit(s[DigitPrefixLength(s, radix)], radix)
  {
    if s != [] && IsRadixDigit(s[0], radix) {
      DigitPrefixIsLongest(s[1..], radix);
    }
  }

  /** The mathematical value of a string of digits, most significant digit first. */
  function DigitsValue(digits: string, radix: nat): nat
  {
    if digits == [] then 0
    else DigitsValue(digits[..|digits| - 1], radix) * radix + DigitValue(digits[|digits| - 1])
  }

  /** Reads the longest run of radix-`radix` digits at the start of `s`; none at all is NaN
      (steps 11 to 13 of parseInt). */
  function ParseRadix(s: string, radix: nat): Num
  {
    var end := DigitPrefixLength(s, radix);
    if end == 0 then NaN else Int(DigitsValue(s[..end], radix))
  }

  /** A `0x` or `0X` prefix, which switches parseInt to radix 16 (step 9). */
  predicate HasHexPrefix(s: string)
  {
    |s| >= 2 && s[0] == '0' && (s[1] == 'x' || s[1] == 'X')
  }

  /** The digits after the sign, in radix 16 after a hex prefix and in radix 10 otherwise. */
  function ParseMagnitude(s: string): Num
  {
    if HasHexPrefix(s) then ParseRadix(s[2..], 16) else ParseRadix(s, 10)
  }

  function Negate(n: Num): Num
  {
    if n.Int? then Int(-n.value) else NaN
  }

  /** One optional sign, then the magnitude (steps 3 to 15, on a string already trimmed). */
  function ParseSigned(s: string): Num
  {
    if s != [] && s[0] == '-' then Negate(ParseMagnitude(s[1..]))
    else if s != [] && s[0] == '+' then ParseMagnitude(s[1..])
    else ParseMagnitude(s)
  }

  /** `parseInt(input)` with the radix argument undefined: skip leading white space, read one
      optional sign, switch to radix 16 after a `0x` or `0X` prefix, then read the longest run of
      digits; no digits at all gives NaN. */
  function ParseInt(input: string): Num
  {
    ParseSigned(TrimStart(input))
  }

  /** parseInt gives NaN exactly when no digit follows the white space, the sign and the hex
      prefix; otherwise it gives the value of the longest run of digits there, negated after a
      minus sign. */
  lemma ParseIntReadsLongestRun(input: string)
    ensures var t := TrimStart(input);
            var u := if t != [] && (t[0] == '-' || t[0] == '+') then t[1..] else t;
            var digits, radix := if HasHexPrefix(u) then u[2..] else u, if HasHexPrefix(u) then 16 else 10;
            var run := digits[..DigitPrefixLength(digits, radix)];
            (ParseInt(input).NaN? <==> run == []) &&
            (ParseInt(input).Int? ==>
              t != [] && ParseInt(input).value == (if t[0] == '-' then -1 else 1) * DigitsValue(run, radix))
  {
  }

  /** The decimal digit for `d`. */
  function DecimalDigit(d: nat): (c: char)
    requires d < 10
    ensures IsDecimalDigit(c) && DigitValue(c) == d
  {
    ('0' as int + d) as char
  }

  /** The decimal rendering of a natural number, without leading zeros. */
  function NatToDecimal(n: nat): (s: string)
    ensures s != []
    ensures forall i :: 0 <= i < |s| ==> IsDecimalDigit(s[i])
    ensures |s| > 1 ==> s[0] != '0'
    ensures DigitsValue(s, 10) == n
  {
    if n < 10 then [DecimalDigit(n)]
    else
      var s := NatToDecimal(n / 10) + [DecimalDigit(n % 10)];
      assert s[..|s| - 1] == NatToDecimal(n / 10);
      s
  }

  /** `n.toString()` for an integer `n`: a minus sign for negative numbers, then the decimal digits.
      JavaScript writes these plain digits only below 1e21 in magnitude; exponent notation above
      that is not modelled. */
  function IntToDecimal(n: int): (s: string)
    ensures s != [] && (s[0] == '-' <==> n < 0)
  {
    if n < 0 then "-" + NatToDecimal(-n) else NatToDecimal(n)
  }
  /** After the optional minus sign, `toString` writes the canonical digits of the magnitude:
      non-empty, decimal only, no leading zero, and worth exactly `|n|`. */
  lemma IntToDecimalIsCanonical(n: int)
    ensures var s := IntToDecimal(n); var d := if n < 0 then s[1..] else s;
            d != [] && (forall i :: 0 <= i < |d| ==> IsDecimalDigit(d[i])) && (|d| > 1 ==> d[0] != '0') &&
            DigitsValue(d, 10) == (if n < 0 then -n else n)
  {
    if n < 0 {
      assert IntToDecimal(n)[1..] == NatToDecimal(-n);
    }
  }


  /** What the truthiness test on a parsed page input lets through: no digits, a zero in any
      spelling and a bare hex prefix are falsy; a negative number is truthy. */
  lemma TruthyPageInputs()
    ensures !Truthy(ParseInt("")) && !Truthy(ParseInt("  "))
    ensures !Truthy(ParseInt("0")) && !Truthy(ParseInt("-0")) && !Truthy(ParseInt("00"))
    ensures !Truthy(ParseInt("0x")) && !Truthy(ParseInt("0x0"))
    ensures Truthy(ParseInt("-1")) && Truthy(ParseInt(" 7"))
  {
    assert TrimStart("  ") == "";
    assert TrimStart(" 7") == "7";
    assert DigitPrefixLength("00", 10) == 2;
    assert "00"[..2] == "00";
    assert DigitsValue("00", 10) == 0 by { assert "00"[..1] == "0"; }
  }

  /** Different naturals have different decimal renderings. */
  lemma NatToDecimalDistinct(m: nat, n: nat)
    requires m != n
    ensures NatToDecimal(m) != NatToDecimal(n)
  {
    assert DigitsValue(NatToDecimal(m), 10) == m && DigitsValue(NatToDecimal(n), 10) == n;
  }

  /** A run of radix digits followed by a non-digit (or nothing) is read up to its end. */
  lemma {:induction false} DigitPrefixOfDigits(digits: string, rest: string, radix: nat)
    requires forall i :: 0 <= i < |digits| ==> IsRadixDigit(digits[i], radix)
    requires rest == [] || !IsRadixDigit(rest[0], radix)
    ensures DigitPrefixLength(digits + rest, radix) == |digits|
  {
    if digits != [] {
      assert (digits + rest)[1..] == digits[1..] + rest;
      DigitPrefixOfDigits(digits[1..], rest, radix);
    }
  }

  /** A decimal rendering followed by a character that cannot continue it reads as that number. */
  lemma ParseMagnitudeOfDecimal(n: nat, rest: string)
    requires rest == [] || (!IsDecimalDigit(rest[0]) && rest[0] != 'x' && rest[0] != 'X')
    ensures ParseMagnitude(NatToDecimal(n) + rest) == Int(n)
  {
    var d := NatToDecimal(n);
    var s := d + rest;
    DigitPrefixOfDigits(d, rest, 10);
    assert !HasHexPrefix(s) by {
      if |d| > 1 {
        assert s[1] == d[1];
      } else if |s| >= 2 {
        assert s[1] == rest[0];
      }
    }
    assert s[..|d|] == d;
  }

  /** parseInt reads back what toString wrote, and stops at the first character that cannot
      continue the number: `parseInt("1.9") == 1`, `parseInt("12 pages") == 12`. */
  lemma ParseIntOfDecimal(n: int, rest: string)
    requires rest == [] || (!IsDecimalDigit(rest[0]) && rest[0] != 'x' && rest[0] != 'X')
    ensures ParseInt(IntToDecimal(n) + rest) == Int(n)
  {
    var m: nat := if n < 0 then -n else n;
    var d := NatToDecimal(m);
    ParseMagnitudeOfDecimal(m, rest);
    var s := IntToDecimal(n) + rest;
    if n < 0 {
      assert s == ['-'] + (d + rest);
      assert s[0] == '-' && s[1..] == d + rest;
      assert !IsStrWhiteSpace('-');
      assert ParseSigned(s) == Int(n);
    } else {
      assert s == d + rest;
      assert IsDecimalDigit(s[0]) by { assert s[0] == d[0]; }
      assert !IsStrWhiteSpace(s[0]);
      assert ParseSigned(s) == Int(n);
    }
    assert TrimStart(s) == s;
  }

  /** The decimal rendering round-trips: `parseInt(String(n)) === n` for every integer `n`. */
  lemma ParseIntToString(n: int)
    ensures ParseInt(IntToDecimal(n)) == Int(n)
  {
    ParseIntOfDecimal(n, []);
    assert IntToDecimal(n) + [] == IntToDecimal(n);
  }

  /** Leading white space never changes what parseInt reads. */
  lemma {:induction false} ParseIntSkipsWhiteSpace(space: string, s: string)
    requires forall i :: 0 <= i < |space| ==> IsStrWhiteSpace(space[i])
    ensures TrimStart(space + s) == TrimStart(s)
    ensures ParseInt(space + s) == ParseInt(s)
  {
    if space != [] {
      assert (space + s)[0] == space[0];
      assert (space + s)[1..] == space[1..] + s;
      ParseIntSkipsWhiteSpace(space[1..], s);
    } else {
      assert space + s == s;
    }
  }
}
