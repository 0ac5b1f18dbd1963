/** What numbers look like in text: the number routines said again in terms of the characters. */
module NumberText {
  import opened Outcomes
  import opened Text
  import opened Numbers

  // ---------------------------------------------------------------- single digits

  lemma LowerDigit(d: nat)
    requires d < 16
    ensures DigitVal("0123456789abcdef"[d]) == d
  {
  }

  lemma UpperDigit(d: nat)
    requires d < 16
    ensures DigitVal("0123456789ABCDEF"[d]) == d
  {
  }

  lemma DecimalDigit(d: nat)
    requires d < 10
    ensures DigitVal("0123456789"[d]) == d
  {
  }

  lemma HexDigits(c: char)
    ensures c in "0123456789abcdefABCDEF" <==> DigitVal(c) < 16
  {
  }

  lemma DecimalDigits(c: char)
    ensures c in "0123456789" <==> DigitVal(c) < 10
  {
  }

  predicate HexText(s: string) {
    forall i | 0 <= i < |s| :: s[i] in "0123456789abcdefABCDEF"
  }

  predicate DecimalText(s: string) {
    forall i | 0 <= i < |s| :: s[i] in "0123456789"
  }

  lemma HexTextDigits(s: string)
    ensures HexText(s) <==> Digits(s, 16)
  {
    hide DigitVal;
    forall i | 0 <= i < |s| ensures s[i] in "0123456789abcdefABCDEF" <==> DigitVal(s[i]) < 16 {
      HexDigits(s[i]);
    }
  }

  lemma DecimalTextDigits(s: string)
    ensures DecimalText(s) <==> Digits(s, 10)
  {
    hide DigitVal;
    forall i | 0 <= i < |s| ensures s[i] in "0123456789" <==> DigitVal(s[i]) < 10 {
      DecimalDigits(s[i]);
    }
  }

  lemma ValueSnoc(ds: string, c: char, base: nat)
    requires Base(base) && Digits(ds, base) && DigitVal(c) < base
    ensures Digits(ds + [c], base) && Value(ds + [c], base) == base * Value(ds, base) + DigitVal(c)
  {
    hide DigitVal;
    assert (ds + [c])[..|ds|] == ds;
  }

  // ---------------------------------------------------------------- stoul in base 16

  /** The digit that stands for `d`, small or large. */
  predicate HexDigitOf(c: char, d: nat)
    requires d < 16
  {
    c == "0123456789abcdef"[d] || c == "0123456789ABCDEF"[d]
  }

  lemma HexDigitValue(c: char, d: nat)
    requires d < 16 && HexDigitOf(c, d)
    ensures DigitVal(c) == d && HexText([c])
  {
    LowerDigit(d);
    UpperDigit(d);
    HexDigits(c);
  }

  /** All hexadecimal digits are written in one run. */
  lemma StoulOfRun(ds: string)
    requires ds != "" && HexText(ds)
    ensures Digits(ds, 16)
    ensures Stoul16(ds) == if Value(ds, 16) < TWO_TO_64 then Success(Value(ds, 16)) else Failure(OutOfRange)
  {
    hide Numeral, Value, DigitVal;
    HexTextDigits(ds);
    assert ds + "" == ds;
    NumeralOfDigits(ds, "", 16);
  }

  /** One digit, of either case. */
  lemma StoulOfDigit(d: nat)
    requires d < 16
    ensures Stoul16(["0123456789abcdef"[d]]) == Success(d) && Stoul16(["0123456789ABCDEF"[d]]) == Success(d)
  {
    hide Stoul16, Value, DigitVal;
    forall c | HexDigitOf(c, d) ensures Stoul16([c]) == Success(d) {
      HexDigitValue(c, d);
      StoulOfRun([c]);
      OneDigit(c);
    }
    assert HexDigitOf("0123456789abcdef"[d], d) && HexDigitOf("0123456789ABCDEF"[d], d);
  }

  lemma OneDigit(c: char)
    requires DigitVal(c) < 16
    ensures Value([c], 16) == DigitVal(c)
    ensures DigitVal(c) < 10 ==> Value([c], 10) == DigitVal(c)
  {
    assert [c][..0] == "";
  }

  /** One more digit makes 16 times as much and the digit, until 64 bits are not enough. */
  lemma StoulAppends(ds: string, c: char, d: nat)
    requires ds != "" && HexText(ds) && d < 16 && HexDigitOf(c, d)
    ensures var n := Stoul16(ds);
            Stoul16(ds + [c]) == if n.Success? && 16 * n.value + d < 0x1_0000_0000_0000_0000
                                 then Success(16 * n.value + d) else Failure(OutOfRange)
  {
    hide Stoul16, Value, DigitVal, HexDigitOf;
    HexDigitValue(c, d);
    StoulOfRun(ds);
    ValueSnoc(ds, c, 16);
    StoulOfRun(ds + [c]);
  }

  /** Texts that differ in the case of letters only. */
  predicate SameButCase(s: string, t: string) {
    |s| == |t| && forall i | 0 <= i < |s| :: exists d: nat | d < 16 :: HexDigitOf(s[i], d) && HexDigitOf(t[i], d)
  }

  lemma {:induction false} SameValue(s: string, t: string)
    requires |s| == |t| && forall i | 0 <= i < |s| :: DigitVal(s[i]) == DigitVal(t[i]) < 16
    ensures Digits(s, 16) && Digits(t, 16) && Value(s, 16) == Value(t, 16)
  {
    hide DigitVal;
    if s != "" {
      SameValue(s[..|s| - 1], t[..|t| - 1]);
    }
  }

  /** The case of the letters does not matter. */
  lemma StoulIgnoresCase(s: string, t: string)
    requires s != "" && SameButCase(s, t)
    ensures Stoul16(s) == Stoul16(t)
  {
    hide Stoul16, Value, DigitVal, HexDigitOf;
    forall i | 0 <= i < |s| ensures DigitVal(s[i]) == DigitVal(t[i]) < 16 {
      var d: nat :| d < 16 && HexDigitOf(s[i], d) && HexDigitOf(t[i], d);
      HexDigitValue(s[i], d);
      HexDigitValue(t[i], d);
    }
    SameValue(s, t);
    HexTextDigits(s);
    HexTextDigits(t);
    StoulOfRun(s);
    StoulOfRun(t);
  }

  /** What follows the digits is not looked at. */
  lemma StoulStops(ds: string, rest: string)
    requires ds != "" && HexText(ds) && rest != "" && rest[0] !in "0123456789abcdefABCDEFxX"
    ensures Stoul16(ds + rest) == Stoul16(ds)
  {
    hide Numeral, Value, DigitVal;
    HexTextDigits(ds);
    HexDigits(rest[0]);
    NumeralOfDigits(ds, rest, 16);
    StoulOfRun(ds);
  }

  /** White space in front is skipped. */
  lemma NumeralSkipsSpace(c: char, s: string, base: nat)
    requires Base(base) && c as int in {9, 10, 11, 12, 13, 32}
    ensures Numeral([c] + s, base) == Numeral(s, base)
  {
    hide DigitRun, Value, DropHexPrefix;
    LTrimSkips(c, s);
    hide LTrim;
  }

  lemma {:induction false} SpaceShift(c: char, s: string, i: nat)
    requires i <= |s|
    ensures FirstNonSpace([c] + s, i + 1) == FirstNonSpace(s, i) + 1
    decreases |s| - i
  {
    assert i < |s| ==> ([c] + s)[i + 1] == s[i];
    if i < |s| && IsSpace(s[i]) {
      SpaceShift(c, s, i + 1);
    }
  }

  lemma LTrimSkips(c: char, s: string)
    requires IsSpace(c)
    ensures LTrim([c] + s) == LTrim(s)
  {
    SpaceShift(c, s, 0);
  }

  lemma NoUnsigned(s: string, base: nat)
    requires Base(base) && (s != "" ==> DigitVal(s[0]) >= 16)
    ensures Unsigned(s, base) == Failure(InvalidArgument)
  {
    hide Value;
  }

  predicate Bare(s: string) {
    s == "" || (s[0] !in "+-" && s[0] as int !in {9, 10, 11, 12, 13, 32})
  }

  lemma NumeralOfBare(s: string, base: nat)
    requires Base(base) && Bare(s)
    ensures var n := Unsigned(s, base);
            Numeral(s, base) == if n.Success? then Success((false, n.value)) else Failure(n.error)
  {
    hide Unsigned;
    LTrimFixed(s);
  }

  /** Nothing but a digit, a sign or white space can begin a number. */
  lemma NoNumeral(s: string, base: nat)
    requires Base(base) && Bare(s) && (s != "" ==> s[0] !in "0123456789abcdefABCDEF")
    ensures Numeral(s, base) == Failure(InvalidArgument)
  {
    hide Numeral, Unsigned, DigitVal;
    NumeralOfBare(s, base);
    if s != "" {
      HexDigits(s[0]);
    }
    NoUnsigned(s, base);
  }

  /** A sign stands directly before the number. */
  lemma NumeralOfSign(sign: char, s: string, base: nat)
    requires Base(base) && (sign == '+' || sign == '-')
    ensures var n := Numeral(s, base);
            Numeral([sign] + s, base) == if Bare(s) && n.Success? then Success((sign == '-', n.value.1))
                                         else Failure(InvalidArgument)
  {
    hide Unsigned, DigitVal;
    var t := [sign] + s;
    LTrimFixed(t);
    assert t[1..] == s;
    UnsignedError(s, base);
    if Bare(s) {
      NumeralOfBare(s, base);
    } else {
      HexDigits(s[0]);
      NoUnsigned(s, base);
    }
  }

  lemma UnsignedError(s: string, base: nat)
    requires Base(base)
    ensures Unsigned(s, base).Failure? ==> Unsigned(s, base).error == InvalidArgument
  {
    hide DigitRun, Value, DropHexPrefix;
  }

  lemma UnsignedDropsPrefix(x: char, ds: string)
    requires (x == 'x' || x == 'X') && ds != "" && Digits(ds, 16)
    ensures Unsigned(['0', x] + ds, 16) == Unsigned(ds, 16)
  {
    hide DigitRun, Value, DigitVal;
    var s := ['0', x] + ds;
    assert s[2] == ds[0] && s[2..] == ds;
    NoPrefixInDigits(ds);
  }

  lemma NoPrefixInDigits(ds: string)
    requires Digits(ds, 16)
    ensures DropHexPrefix(ds) == ds
  {
    assert |ds| > 1 ==> DigitVal(ds[1]) < 16;
  }

  /** A prefix is dropped in front of a digit. */
  lemma StoulDropsPrefix(x: char, ds: string)
    requires (x == 'x' || x == 'X') && ds != "" && HexText(ds)
    ensures Stoul16(['0', x] + ds) == Stoul16(ds)
  {
    hide Numeral, Unsigned, DigitVal;
    HexTextDigits(ds);
    assert ds[0] in "0123456789abcdefABCDEF";
    NumeralOfBare(['0', x] + ds, 16);
    NumeralOfBare(ds, 16);
    UnsignedDropsPrefix(x, ds);
  }

  /** Without a digit behind it the prefix is no prefix, and the number is its zero. */
  lemma StoulOfLonePrefix(x: char, rest: string)
    requires (x == 'x' || x == 'X') && (rest != "" ==> rest[0] !in "0123456789abcdefABCDEF")
    ensures Stoul16(['0', x] + rest) == Success(0)
  {
    hide Numeral, Unsigned, DigitVal;
    if rest != "" {
      HexDigits(rest[0]);
    }
    NumeralOfBare(['0', x] + rest, 16);
    UnsignedOfLonePrefix(x, rest);
  }

  lemma UnsignedOfLonePrefix(x: char, rest: string)
    requires (x == 'x' || x == 'X') && (rest != "" ==> DigitVal(rest[0]) >= 16)
    ensures Unsigned(['0', x] + rest, 16) == Success(0)
  {
    hide RunEnd, Value;
    var s := ['0', x] + rest;
    assert |s| > 2 ==> s[2] == rest[0];
    assert s == "0" + ([x] + rest);
    ZeroValue();
    DigitRunStops("0", [x] + rest, 16);
  }

  /** White space, signs and what is no number, for both routines.  A minus sign negates; for the
      unsigned routine modulo 2^64. */
  lemma NumbersSkipSpace(c: char, s: string)
    requires c as int in {9, 10, 11, 12, 13, 32}
    ensures Stoul16([c] + s) == Stoul16(s) && Stoi([c] + s) == Stoi(s)
  {
    hide Numeral;
    NumeralSkipsSpace(c, s, 16);
    NumeralSkipsSpace(c, s, 10);
  }

  lemma NoNumber(s: string)
    requires Bare(s) && (s != "" ==> s[0] !in "0123456789abcdefABCDEF")
    ensures Stoul16(s) == Failure(InvalidArgument) && Stoi(s) == Failure(InvalidArgument)
  {
    hide Numeral;
    NoNumeral(s, 16);
    NoNumeral(s, 10);
  }

  lemma StoulOfSign(s: string)
    requires Bare(s)
    ensures Stoul16(['+'] + s) == Stoul16(s)
    ensures Stoul16(['-'] + s) == if Stoul16(s).Failure? || Stoul16(s).value == 0 then Stoul16(s)
                                  else Success(0x1_0000_0000_0000_0000 - Stoul16(s).value)
  {
    hide Numeral, Unsigned;
    NumeralOfSign('+', s, 16);
    NumeralOfSign('-', s, 16);
    NumeralOfBare(s, 16);
    UnsignedError(s, 16);
  }

  lemma SignThenNoDigit(sign: char, c: char, s: string)
    requires (sign == '+' || sign == '-') && (c in "+-" || c as int in {9, 10, 11, 12, 13, 32})
    ensures Stoul16([sign] + ([c] + s)) == Failure(InvalidArgument)
    ensures Stoi([sign] + ([c] + s)) == Failure(InvalidArgument)
  {
    hide Numeral;
    NumeralOfSign(sign, [c] + s, 16);
    NumeralOfSign(sign, [c] + s, 10);
  }

  // ---------------------------------------------------------------- stoi

  lemma DecimalRun(ds: string)
    requires ds != "" && DecimalText(ds)
    ensures Digits(ds, 10) && Bare(ds) && Numeral(ds, 10) == Success((false, Value(ds, 10)))
  {
    hide Numeral, Value, DigitVal;
    DecimalTextDigits(ds);
    assert ds[0] in "0123456789";
    assert ds + "" == ds;
    NumeralOfDigits(ds, "", 10);
  }

  lemma StoiOfRun(ds: string, n: int)
    requires ds != "" && DecimalText(ds) && Digits(ds, 10) && n == Value(ds, 10)
    ensures Stoi(ds) == if n < 0x8000_0000 then Success(n) else Failure(OutOfRange)
  {
    hide Numeral, Value, DecimalText, Digits, Bare, Stoi;
    DecimalRun(ds);
    StoiOfNumeral(ds, false, n);
  }

  lemma StoiOfSignedRun(ds: string, n: int)
    requires ds != "" && DecimalText(ds) && Digits(ds, 10) && n == Value(ds, 10)
    ensures Stoi(['+'] + ds) == if n < 0x8000_0000 then Success(n) else Failure(OutOfRange)
    ensures Stoi(['-'] + ds) == if n <= 0x8000_0000 then Success(-n) else Failure(OutOfRange)
  {
    hide Numeral, Value, DecimalText, Digits, Bare, Stoi;
    DecimalRun(ds);
    NumeralOfSign('-', ds, 10);
    NumeralOfSign('+', ds, 10);
    StoiOfNumeral(['+'] + ds, false, n);
    StoiOfNumeral(['-'] + ds, true, n);
  }

  lemma StoiOfNumeral(s: string, negative: bool, n: nat)
    requires Numeral(s, 10) == Success((negative, n))
    ensures Stoi(s) == if n < 0x8000_0000 || (negative && n == 0x8000_0000)
                       then Success(if negative then 0 - n else n) else Failure(OutOfRange)
  {
    hide Numeral;
  }

  lemma StoiOfDigit(d: nat)
    requires d < 10
    ensures Stoi(["0123456789"[d]]) == Success(d)
  {
    hide Stoi, Value, DigitVal;
    var c := "0123456789"[d];
    DecimalDigit(d);
    DecimalDigits(c);
    OneDigit(c);
    DecimalTextDigits([c]);
    StoiOfRun([c], d);
  }

  /** One more digit makes ten times as much and the digit, until 31 bits are not enough. */
  lemma StoiAppends(ds: string, d: nat)
    requires ds != "" && DecimalText(ds) && d < 10
    ensures var n := Stoi(ds);
            Stoi(ds + ["0123456789"[d]]) == if n.Success? && 10 * n.value + d <= 2147483647
                                            then Success(10 * n.value + d) else Failure(OutOfRange)
  {
    hide Stoi, Value, DigitVal;
    var c := "0123456789"[d];
    DecimalDigit(d);
    DecimalDigits(c);
    DecimalTextDigits(ds);
    StoiOfRun(ds, Value(ds, 10));
    ValueSnoc(ds, c, 10);
    StoiOfRun(ds + [c], 10 * Value(ds, 10) + d);
  }

  /** Signs; minus reaches one further. */
  lemma StoiOfSign(ds: string)
    requires ds != "" && DecimalText(ds)
    ensures Stoi(ds).Success? ==> Stoi(['-'] + ds) == Success(-Stoi(ds).value)
    ensures Stoi(['+'] + ds) == Stoi(ds)
  {
    hide Stoi, Value, DigitVal;
    DecimalTextDigits(ds);
    StoiOfRun(ds, Value(ds, 10));
    StoiOfSignedRun(ds, Value(ds, 10));
  }

  lemma StoiBounds()
    ensures Stoi("2147483647") == Success(2147483647) && Stoi("2147483648").Failure?
    ensures Stoi("-2147483648") == Success(-2147483648) && Stoi("-2147483649").Failure?
  {
    hide Stoi, Value, DigitVal, DecimalText;
    BoundValue('7', 7);
    BoundValue('8', 8);
    BoundValue('9', 9);
    StoiOfRun("2147483647", 2147483647);
    StoiOfRun("2147483648", 2147483648);
    StoiOfSignedRun("2147483648", 2147483648);
    StoiOfSignedRun("2147483649", 2147483649);
    assert ['-'] + "2147483648" == "-2147483648" && ['-'] + "2147483649" == "-2147483649";
  }

  lemma BoundValue(c: char, d: nat)
    requires d < 10 && c == "0123456789"[d]
    ensures var ds := ['2', '1', '4', '7', '4', '8', '3', '6', '4', c];
            DecimalText(ds) && Digits(ds, 10) && Value(ds, 10) == 2147483640 + d
  {
    hide Value, DigitVal;
    DecimalDigit(d);
    DecimalDigits(c);
    FrontValue();
    ValueSnoc("214748364", c, 10);
    assert "214748364" + [c] == ['2', '1', '4', '7', '4', '8', '3', '6', '4', c];
    DecimalTextDigits(['2', '1', '4', '7', '4', '8', '3', '6', '4', c]);
  }

  lemma FrontValue()
    ensures Digits("214748364", 10) && Value("214748364", 10) == 214748364
  {
    hide Value;
    OneDigit('2');
    ValueSnoc("2", '1', 10);
    assert "2" + ['1'] == "21";
    ValueSnoc("21", '4', 10);
    assert "21" + ['4'] == "214";
    ValueSnoc("214", '7', 10);
    assert "214" + ['7'] == "2147";
    ValueSnoc("2147", '4', 10);
    assert "2147" + ['4'] == "21474";
    ValueSnoc("21474", '8', 10);
    assert "21474" + ['8'] == "214748";
    ValueSnoc("214748", '3', 10);
    assert "214748" + ['3'] == "2147483";
    ValueSnoc("2147483", '6', 10);
    assert "2147483" + ['6'] == "21474836";
    ValueSnoc("21474836", '4', 10);
    assert "21474836" + ['4'] == "214748364";
  }

  lemma StoiStops(ds: string, rest: string)
    requires ds != "" && DecimalText(ds) && rest != "" && rest[0] !in "0123456789"
    ensures Stoi(ds + rest) == Stoi(ds)
  {
    hide Numeral, Unsigned, DigitVal;
    DecimalTextDigits(ds);
    DecimalDigits(rest[0]);
    assert ds[0] in "0123456789" && (ds + rest)[0] == ds[0];
    NumeralOfBare(ds + rest, 10);
    NumeralOfBare(ds, 10);
    UnsignedOfRun(ds, rest);
  }

  lemma UnsignedOfRun(ds: string, rest: string)
    requires Digits(ds, 10) && (rest != "" ==> DigitVal(rest[0]) >= 10)
    ensures Unsigned(ds + rest, 10) == Unsigned(ds, 10)
  {
    hide RunEnd, Value, DigitVal;
    DigitRunStops(ds, rest, 10);
    assert ds + "" == ds;
    DigitRunStops(ds, "", 10);
  }

  // ---------------------------------------------------------------- printing

  lemma {:induction false} RenderIsText(n: nat, base: nat)
    requires Base(base)
    ensures base == 10 ==> DecimalText(Render(n, base))
    ensures forall i | 0 <= i < |Render(n, base)| :: Render(n, base)[i] in "0123456789abcdef"
    ensures n > 0 ==> Render(n, base)[0] != '0'
  {
    if n < base {
      DigitCharIs(n);
    } else {
      RenderIsText(n / base, base);
      DigitCharIs(n % base);
    }
  }

  lemma DigitCharIs(d: nat)
    requires d < 16
    ensures DigitChar(d) == "0123456789abcdef"[d] && DigitChar(d) in "0123456789abcdef"
    ensures d < 10 ==> DigitChar(d) in "0123456789"
  {
  }

  /** A number of 0 or more is printed as decimal digits without leading zeros, a negative one as a
      minus sign and its opposite. */
  lemma ToStringIsDecimal(n: int)
    ensures n >= 0 ==> ToString(n) != "" && DecimalText(ToString(n)) && (n > 0 ==> ToString(n)[0] != '0')
    ensures n == 0 ==> ToString(n) == "0"
    ensures n < 0 ==> ToString(n) == "-" + ToString(-n)
  {
    RenderIsText(if n < 0 then -n else n, 10);
  }

  /** The hexadecimal printer writes "0x", zeros up to the width, and small digits. */
  lemma IntToHexIsHex(n: nat, width: nat)
    ensures var s := IntToHex(n, width);
            && |s| > 2 && s[0] == '0' && s[1] == 'x'
            && (forall i | 2 <= i < |s| :: s[i] in "0123456789abcdef")
            && (0 < width <= 16 && n < Pow16(width) ==> |s| == width + 2)
  {
    hide Render, Pow16;
    RenderIsText(n, 16);
    var ds := Render(n, 16);
    ZerosAreZeros(if |ds| < width then width - |ds| else 0);
    if 0 < width <= 16 && n < Pow16(width) {
      IntToHexLength(n, width);
    }
  }

  lemma {:induction false} ZerosAreZeros(k: nat)
    ensures forall i | 0 <= i < k :: Zeros(k)[i] == '0'
  {
    if k > 0 {
      ZerosAreZeros(k - 1);
    }
  }
}
