/** std::stoi, std::stoul in base 16, std::to_string and the zero-padded hexadecimal printer. */
module Numbers {
  import opened Outcomes
  import opened Text

  const TWO_TO_31: int := 0x8000_0000
  const TWO_TO_32: nat := 0x1_0000_0000
  const TWO_TO_64: nat := 0x1_0000_0000_0000_0000

  /** Widths that setw(sizeof(T) * 2) gives for `int` and for `size_t`. */
  const INT_HEX_WIDTH: nat := 8
  const SIZE_HEX_WIDTH: nat := 16

  const NOT_A_DIGIT: nat := 99

  predicate Base(b: nat) {
    b == 10 || b == 16
  }

  function DigitVal(c: char): nat {
    if '0' <= c <= '9' then c as int - '0' as int
    else if 'a' <= c <= 'f' then c as int - 'a' as int + 10
    else if 'A' <= c <= 'F' then c as int - 'A' as int + 10
    else NOT_A_DIGIT
  }

  function DigitChar(d: nat): (c: char)
    requires d < 16
    ensures DigitVal(c) == d
  {
    if d < 10 then ('0' as int + d) as char else ('a' as int + d - 10) as char
  }

  predicate Digits(s: string, base: nat) {
    forall i | 0 <= i < |s| :: DigitVal(s[i]) < base
  }

  function Value(ds: string, base: nat): nat
    requires Base(base) && Digits(ds, base)
  {
    if ds == "" then 0
    else
      var high := Value(ds[..|ds| - 1], base);
      (if base == 16 then 16 * high else 10 * high) + DigitVal(ds[|ds| - 1])
  }

  /** Where the run of digits that starts at `i` ends. */
  function RunEnd(s: string, i: nat, base: nat): (e: nat)
    requires i <= |s|
    ensures i <= e <= |s| && forall k | i <= k < e :: DigitVal(s[k]) < base
    ensures e < |s| ==> DigitVal(s[e]) >= base
    decreases |s| - i
  {
    if i < |s| && DigitVal(s[i]) < base then RunEnd(s, i + 1, base) else i
  }

  /** The longest run of digits at the front. */
  function DigitRun(s: string, base: nat): (r: string)
    ensures r <= s && Digits(r, base)
  {
    s[..RunEnd(s, 0, base)]
  }

  /** strtol and strtoul drop "0x" only when a hexadecimal digit follows it. */
  function DropHexPrefix(s: string): string {
    if |s| > 2 && s[0] == '0' && (s[1] == 'x' || s[1] == 'X') && DigitVal(s[2]) < 16 then s[2..] else s
  }

  /** A prefix in base 16, then digits.  Anything after the digits is ignored; no digits at all is
      an error. */
  function Unsigned(s: string, base: nat): Result<nat>
    requires Base(base)
  {
    var ds := DigitRun(if base == 16 then DropHexPrefix(s) else s, base);
    if ds == "" then Failure(InvalidArgument) else Success(Value(ds, base))
  }

  /** The part strtol and strtoul share: white space, a sign, a number. */
  function Numeral(s: string, base: nat): Result<(bool, nat)>
    requires Base(base)
  {
    var t := LTrim(s);
    var signed := t != "" && (t[0] == '-' || t[0] == '+');
    var n :- Unsigned(if signed then t[1..] else t, base);
    Success((signed && t[0] == '-', n))
  }

  /** std::stoi(s). */
  function Stoi(s: string): (r: Result<int>)
    ensures r.Success? ==> -TWO_TO_31 <= r.value < TWO_TO_31
    ensures r.Failure? ==> r.error != NeverReturns
  {
    var (negative, n) :- Numeral(s, 10);
    var v: int := if negative then 0 - n else n;
    if -TWO_TO_31 <= v < TWO_TO_31 then Success(v) else Failure(OutOfRange)
  }

  /** std::stoul(s, nullptr, 16): a minus sign negates modulo 2^64. */
  function Stoul16(s: string): (r: Result<nat>)
    ensures r.Success? ==> r.value < TWO_TO_64
    ensures r.Failure? ==> r.error != NeverReturns
  {
    var (negative, n) :- Numeral(s, 16);
    if n >= TWO_TO_64 then Failure(OutOfRange)
    else Success(if negative then (TWO_TO_64 - n) % TWO_TO_64 else n)
  }

  /** Digits without leading zeros, most significant first. */
  function Render(n: nat, base: nat): (s: string)
    requires Base(base)
    ensures s != "" && Digits(s, base)
  {
    if n < base then [DigitChar(n)] else Render(n / base, base) + [DigitChar(n % base)]
  }

  /** std::to_string(int). */
  function ToString(n: int): string {
    if n < 0 then "-" + Render(-n, 10) else Render(n, 10)
  }

  function Zeros(k: nat): (z: string)
    ensures |z| == k && Digits(z, 16)
  {
    if k == 0 then "" else Zeros(k - 1) + "0"
  }

  /** A number right-aligned in a field filled with zeros. */
  function Padded(n: nat, width: nat): (s: string)
    ensures s != "" && Digits(s, 16)
  {
    var ds := Render(n, 16);
    Zeros(if |ds| < width then width - |ds| else 0) + ds
  }

  /** int_to_hex. */
  function IntToHex(n: nat, width: nat): string {
    "0x" + Padded(n, width)
  }

  lemma {:induction false} RenderValue(n: nat, base: nat)
    requires Base(base)
    ensures Value(Render(n, base), base) == n
  {
    if n < base {
      assert [DigitChar(n)][..0] == "";
    } else {
      RenderValue(n / base, base);
      var front := Render(n / base, base);
      assert (front + [DigitChar(n % base)])[..|front|] == front;
    }
  }

  lemma {:induction false} LeadingZerosKeepValue(k: nat, ds: string)
    requires Digits(ds, 16)
    ensures Value(Zeros(k) + ds, 16) == Value(ds, 16)
  {
    var s := Zeros(k) + ds;
    if ds != "" {
      assert s[..|s| - 1] == Zeros(k) + ds[..|ds| - 1];
      LeadingZerosKeepValue(k, ds[..|ds| - 1]);
    } else if k > 0 {
      assert s == Zeros(k);
      assert s[..|s| - 1] == Zeros(k - 1) + "";
      LeadingZerosKeepValue(k - 1, "");
    }
  }

  lemma ZeroValue()
    ensures Digits("0", 16) && Value("0", 16) == 0
    ensures Digits("000", 16) && Value("000", 16) == 0
  {
    var z := "000";
    assert z[..2] == "00" && z[..2][..1] == "0" && z[..2][..1][..0] == "";
    var o := "0";
    assert o[..0] == "";
  }

  lemma DigitRunStops(ds: string, rest: string, base: nat)
    requires Digits(ds, base) && (rest == "" || DigitVal(rest[0]) >= base)
    ensures DigitRun(ds + rest, base) == ds
  {
    var s := ds + rest;
    assert forall k | 0 <= k < |ds| :: s[k] == ds[k];
    assert rest != "" ==> s[|ds|] == rest[0];
    assert RunEnd(s, 0, base) == |ds|;
  }

  lemma NoHexPrefix(s: string)
    requires |s| > 1 ==> s[1] != 'x' && s[1] != 'X'
    ensures DropHexPrefix(s) == s
  {
  }

  /** Reading back unsigned digits, possibly followed by something that is not a digit. */
  lemma NumeralOfDigits(ds: string, rest: string, base: nat)
    requires Base(base) && ds != "" && Digits(ds, base)
    requires rest == "" || (DigitVal(rest[0]) >= base && rest[0] != 'x' && rest[0] != 'X')
    ensures Numeral(ds + rest, base) == Success((false, Value(ds, base)))
  {
    hide RunEnd, Value, FirstNonSpace;
    var s := ds + rest;
    assert s[0] == ds[0] && DigitVal(ds[0]) < base;
    LTrimFixed(s);
    if |s| > 1 {
      assert s[1] == if |ds| > 1 then ds[1] else rest[0];
      assert |ds| > 1 ==> DigitVal(ds[1]) < base;
    }
    NoHexPrefix(s);
    DigitRunStops(ds, rest, base);
  }

  lemma NegativeNumeral(ds: string)
    requires ds != "" && Digits(ds, 10)
    ensures Numeral("-" + ds, 10) == Success((true, Value(ds, 10)))
  {
    hide RunEnd, Value, FirstNonSpace;
    var s := "-" + ds;
    LTrimFixed(s);
    assert s[1..] == ds;
    assert ds + "" == ds;
    DigitRunStops(ds, "", 10);
  }

  lemma StoiOfToString(n: int)
    requires -TWO_TO_31 <= n < TWO_TO_31
    ensures Stoi(ToString(n)) == Success(n)
    ensures ' ' !in ToString(n)
  {
    var m := if n < 0 then -n else n;
    hide Numeral, Value, Render;
    var ds := Render(m, 10);
    RenderValue(m, 10);
    if n < 0 {
      NegativeNumeral(ds);
    } else {
      assert ds + "" == ds;
      NumeralOfDigits(ds, "", 10);
    }
    forall i | 0 <= i < |ds| ensures ds[i] != ' ' {
      assert DigitVal(ds[i]) < 10;
    }
  }

  lemma PrefixedHexNumeral(ds: string)
    requires ds != "" && Digits(ds, 16)
    ensures Numeral("0x" + ds, 16) == Success((false, Value(ds, 16)))
  {
    hide RunEnd, Value, FirstNonSpace;
    var s := "0x" + ds;
    LTrimFixed(s);
    assert s[2] == ds[0] && DigitVal(ds[0]) < 16;
    assert s[2..] == ds;
    assert DropHexPrefix(s) == ds;
    assert ds + "" == ds;
    DigitRunStops(ds, "", 16);
  }

  lemma PrefixedHexIsCrlfFree(ds: string)
    requires Digits(ds, 16)
    ensures CrlfFree("0x" + ds)
  {
    var s := "0x" + ds;
    forall i | 0 <= i < |s| ensures !CrlfAt(s, i) {
      assert i >= 2 ==> s[i] == ds[i - 2] && DigitVal(ds[i - 2]) < 16;
    }
  }

  lemma PaddedValue(n: nat, width: nat)
    ensures Value(Padded(n, width), 16) == n
  {
    var ds := Render(n, 16);
    RenderValue(n, 16);
    LeadingZerosKeepValue(if |ds| < width then width - |ds| else 0, ds);
  }

  /** Base-16 stoul undoes the hexadecimal printer, prefix and padding notwithstanding. */
  lemma StoulOfIntToHex(n: nat, width: nat)
    requires n < TWO_TO_64
    ensures Stoul16(IntToHex(n, width)) == Success(n)
    ensures IntToHex(n, width) != "" && CrlfFree(IntToHex(n, width))
  {
    hide Numeral, Value, Padded;
    PaddedValue(n, width);
    PrefixedHexNumeral(Padded(n, width));
    PrefixedHexIsCrlfFree(Padded(n, width));
  }

  /** A number has at most as many hexadecimal digits as it needs to be reached: a numeral that
      does not start with 0 is worth at least its own length. */
  lemma {:induction false} ValueBeatsLength(ds: string)
    requires ds != "" && Digits(ds, 16) && ds[0] != '0'
    ensures Value(ds, 16) >= |ds|
  {
    assert DigitVal(ds[0]) > 0;
    if |ds| > 1 {
      ValueBeatsLength(ds[..|ds| - 1]);
    } else {
      assert ds[..0] == "";
    }
  }

  lemma {:induction false} ValueOfPrefix(ds: string, k: nat, base: nat)
    requires Base(base) && Digits(ds, base) && k <= |ds|
    ensures Value(ds[..k], base) <= Value(ds, base)
  {
    if k < |ds| {
      ValueOfPrefix(ds[..|ds| - 1], k, base);
      assert ds[..|ds| - 1][..k] == ds[..k];
    } else {
      assert ds[..k] == ds;
    }
  }

  lemma {:induction false} RenderLength(n: nat, k: nat)
    requires 0 < k <= 16 && n < Pow16(k)
    ensures |Render(n, 16)| <= k
  {
    if n >= 16 {
      RenderLength(n / 16, k - 1);
    }
  }

  function Pow16(k: nat): nat {
    if k == 0 then 1 else 16 * Pow16(k - 1)
  }

  lemma IntToHexLength(n: nat, width: nat)
    requires 0 < width <= 16 && n < Pow16(width)
    ensures |IntToHex(n, width)| == width + 2
  {
    RenderLength(n, width);
  }
}
