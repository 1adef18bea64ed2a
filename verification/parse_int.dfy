/**
 * The global function parseInt(string) called without a radix, as ECMA-262
 * section 19.2.5 "parseInt (string, radix)" defines it. The webhook only asks
 * whether the result is NaN; NaN is `None` here. The value is the exact
 * mathematical integer (see README, "Left out", for rounding).
 */
module NumberParsing {
  import opened Wrappers
  import opened EcmaString

  predicate IsDecimalDigit(c: char) {
    '0' <= c <= '9'
  }

  predicate IsHexDigit(c: char) {
    IsDecimalDigit(c) || 'a' <= c <= 'f' || 'A' <= c <= 'F'
  }

  /** A digit of radix 10 or 16 (the only radixes parseInt settles on when none is given). */
  predicate IsRadixDigit(c: char, hex: bool) {
    if hex then IsHexDigit(c) else IsDecimalDigit(c)
  }

  function DigitValue(c: char): (d: nat)
    requires IsHexDigit(c)
    ensures d < 16
    ensures IsDecimalDigit(c) <==> d < 10
  {
    if IsDecimalDigit(c) then c as int - '0' as int
    else if 'a' <= c <= 'f' then c as int - 'a' as int + 10
    else c as int - 'A' as int + 10
  }

  /** Steps 11-12 of parseInt: the longest prefix of `s` made of digits of the radix. */
  function DigitPrefix(s: string, hex: bool): (z: string)
    ensures |z| <= |s| && z == s[..|z|]
    ensures forall i | 0 <= i < |z| :: IsRadixDigit(z[i], hex)
    ensures |z| < |s| ==> !IsRadixDigit(s[|z|], hex)
  {
    if s != [] && IsRadixDigit(s[0], hex) then [s[0]] + DigitPrefix(s[1..], hex) else []
  }

  /** Step 16: the mathematical value of a digit string, most significant digit first. */
  function DigitsValue(z: string, hex: bool): nat
    requires forall i | 0 <= i < |z| :: IsRadixDigit(z[i], hex)
  {
    if z == [] then 0
    else
      var last := z[|z| - 1];
      assert IsRadixDigit(last, hex);
      DigitsValue(z[..|z| - 1], hex) * (if hex then 16 else 10) + DigitValue(last)
  }

  /** The sign character of step 4-5, if `s` starts with one. */
  predicate HasSign(s: string) {
    s != [] && (s[0] == '+' || s[0] == '-')
  }

  /** The "0x" or "0X" prefix of step 10. */
  predicate HasHexPrefix(s: string) {
    |s| >= 2 && s[0] == '0' && (s[1] == 'x' || s[1] == 'X')
  }

  /** parseInt(input) with the radix omitted; `None` is NaN. Step 2 strips leading white space. */
  function ParseInt(input: string): Option<int> {
    ParseSigned(TrimStart(input))
  }

  /** Steps 3-16: an optional sign, then the magnitude, negated after a minus. */
  function ParseSigned(s: string): Option<int> {
    var magnitude := ParseMagnitude(if HasSign(s) then s[1..] else s);
    if magnitude.None? then None
    else if s[0] == '-' then Some(-magnitude.value)
    else magnitude
  }

  /** Steps 10-16 on the text after the sign: radix 16 after "0x"/"0X", otherwise 10. */
  function ParseMagnitude(unsigned: string): Option<int> {
    var hex := HasHexPrefix(unsigned);
    var z := DigitPrefix(if hex then unsigned[2..] else unsigned, hex);
    if z == [] then None else Some(DigitsValue(z, hex))
  }

  /** When parseInt yields a number, told character by character: after an
      optional sign comes a decimal digit, or "0x"/"0X" followed by a hex digit. */
  predicate StartsWithInteger(s: string) {
    var unsigned := if HasSign(s) then s[1..] else s;
    if HasHexPrefix(unsigned) then |unsigned| >= 3 && IsHexDigit(unsigned[2])
    else unsigned != [] && IsDecimalDigit(unsigned[0])
  }

  /** parseInt is NaN exactly when the text (after leading white space) does not start with an integer. */
  lemma {:induction false} ParseIntNaN(input: string)
    ensures ParseInt(input).Some? <==> StartsWithInteger(TrimStart(input))
  {
    var s := TrimStart(input);
    var unsigned := if HasSign(s) then s[1..] else s;
    var hex := HasHexPrefix(unsigned);
    var rest := if hex then unsigned[2..] else unsigned;
    var z := DigitPrefix(rest, hex);
    assert z != [] <==> rest != [] && IsRadixDigit(rest[0], hex) by {
      if rest != [] && IsRadixDigit(rest[0], hex) {
        assert z == [rest[0]] + DigitPrefix(rest[1..], hex);
      }
    }
    if hex {
      assert rest != [] ==> rest[0] == unsigned[2];
    }
    assert ParseSigned(s).Some? <==> ParseMagnitude(unsigned).Some?;
  }

  /** Digits followed by anything that is not a digit: the digits are read and the rest ignored. */
  lemma {:induction false} DigitPrefixStops(digits: string, rest: string, hex: bool)
    requires forall i | 0 <= i < |digits| :: IsRadixDigit(digits[i], hex)
    requires rest == [] || !IsRadixDigit(rest[0], hex)
    ensures DigitPrefix(digits + rest, hex) == digits
    decreases |digits|
  {
    if digits == [] {
      assert digits + rest == rest;
    } else {
      assert (digits + rest)[1..] == digits[1..] + rest;
      DigitPrefixStops(digits[1..], rest, hex);
    }
  }

  /** The magnitude of a run of decimal digits followed by a non-digit is the value of the run. */
  lemma {:induction false} MagnitudeOfLeadingDigits(digits: string, rest: string)
    requires digits != [] && forall i | 0 <= i < |digits| :: IsDecimalDigit(digits[i])
    requires !HasHexPrefix(digits + rest)
    requires rest == [] || !IsDecimalDigit(rest[0])
    ensures var v: int := DigitsValue(digits, false); ParseMagnitude(digits + rest) == Some(v)
  {
    DigitPrefixStops(digits, rest, false);
  }

  /** Steps 3-5: the sign is read off and applied to the magnitude of the rest. */
  lemma {:induction false} SignAppliesToMagnitude(s: string, m: int)
    requires s != []
    requires ParseMagnitude(if HasSign(s) then s[1..] else s) == Some(m)
    ensures ParseSigned(s) == Some(if s[0] == '-' then -m else m)
  {
  }

  /** Text that starts with an optional sign and then a digit has no leading white space. */
  lemma {:induction false} SignedTextIsTrimmed(sign: string, unsigned: string)
    requires sign == "" || sign == "+" || sign == "-"
    requires unsigned != [] && IsDecimalDigit(unsigned[0])
    ensures TrimStart(sign + unsigned) == sign + unsigned
  {
    var s := sign + unsigned;
    assert s[0] == if sign == "" then unsigned[0] else sign[0];
    assert LeadingEnd(s) == 0;
  }

  /** Step 5 leaves exactly the text after the sign, and the sign is negative only after "-". */
  lemma {:induction false} StripSign(sign: string, unsigned: string)
    requires sign == "" || sign == "+" || sign == "-"
    requires unsigned != [] && IsDecimalDigit(unsigned[0])
    ensures sign + unsigned != []
    ensures HasSign(sign + unsigned) <==> sign != ""
    ensures sign != "" ==> (sign + unsigned)[1..] == unsigned
    ensures (sign + unsigned)[0] == '-' <==> sign == "-"
  {
    var s := sign + unsigned;
    assert s[0] == if sign == "" then unsigned[0] else sign[0];
    if sign != "" {
      assert s[1..] == unsigned;
    }
  }

  /** Steps 2-5 on text made of an optional sign and then a digit. */
  lemma {:induction false} ParseIntOfSigned(sign: string, unsigned: string, m: int)
    requires sign == "" || sign == "+" || sign == "-"
    requires unsigned != [] && IsDecimalDigit(unsigned[0])
    requires ParseMagnitude(unsigned) == Some(m)
    ensures ParseInt(sign + unsigned) == Some(if sign == "-" then -m else m)
  {
    var s := sign + unsigned;
    SignedTextIsTrimmed(sign, unsigned);
    StripSign(sign, unsigned);
    assert (if HasSign(s) then s[1..] else s) == unsigned;
    SignAppliesToMagnitude(s, m);
    assert ParseInt(s) == ParseSigned(s);
  }

  /** parseInt reads a leading run of decimal digits, after an optional sign, and
      ignores what follows (so "12ab" is 12 and "-123" is -123). */
  lemma {:induction false} ParseIntReadsLeadingDigits(sign: string, digits: string, rest: string)
    requires sign == "" || sign == "+" || sign == "-"
    requires digits != [] && forall i | 0 <= i < |digits| :: IsDecimalDigit(digits[i])
    requires !HasHexPrefix(digits + rest)
    requires rest == [] || !IsDecimalDigit(rest[0])
    ensures var v: int := DigitsValue(digits, false);
      ParseInt(sign + (digits + rest)) == Some(if sign == "-" then -v else v)
  {
    MagnitudeOfLeadingDigits(digits, rest);
    assert (digits + rest)[0] == digits[0];
    ParseIntOfSigned(sign, digits + rest, DigitsValue(digits, false));
  }
}
