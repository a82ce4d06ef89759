/** Decimal numbers as Python reads and writes them: `int(text)`, the
    grammar `float(text)` accepts, and `str(n)` for integers. Only ASCII
    digits are modelled. */
module Numbers {
  import opened Text

  predicate IsDigit(c: char) {
    '0' <= c <= '9'
  }

  predicate AllDigits(s: string) {
    forall i :: 0 <= i < |s| ==> IsDigit(s[i])
  }

  function DigitValue(c: char): nat
    requires IsDigit(c)
  {
    c as int - '0' as int
  }

  function DigitChar(d: nat): (c: char)
    requires d < 10
    ensures IsDigit(c) && DigitValue(c) == d
  {
    ('0' as int + d) as char
  }

  /** The value of a string of decimal digits, most significant first. */
  function DigitsValue(s: string): nat
    requires AllDigits(s)
  {
    if |s| == 0 then 0 else DigitsValue(s[..|s| - 1]) * 10 + DigitValue(s[|s| - 1])
  }

  /** A decimal numeral as `str(n)` writes it: digits only, no leading zero
      except for the numeral `0` itself. */
  predicate IsCanonical(s: string) {
    |s| >= 1 && AllDigits(s) && (s[0] == '0' ==> |s| == 1)
  }

  /** `str(n)` for a natural number. */
  function NatToString(n: nat): (r: string)
    ensures IsCanonical(r)
    ensures DigitsValue(r) == n
  {
    if n < 10 then [DigitChar(n)]
    else
      var p := NatToString(n / 10);
      var r := p + [DigitChar(n % 10)];
      assert r[..|r| - 1] == p;
      r
  }

  function Pow10(k: nat): (r: nat)
    ensures r >= 1
  {
    if k == 0 then 1 else 10 * Pow10(k - 1)
  }

  function Pow2(k: nat): (r: nat)
    ensures r >= 1
  {
    if k == 0 then 1 else 2 * Pow2(k - 1)
  }

  lemma {:induction false} Pow2Add(a: nat, b: nat)
    ensures Pow2(a + b) == Pow2(a) * Pow2(b)
  {
    if a > 0 {
      Pow2Add(a - 1, b);
    }
  }

  lemma {:induction false} Pow2Monotone(a: nat, b: nat)
    requires a <= b
    ensures Pow2(a) <= Pow2(b)
  {
    if a < b {
      Pow2Monotone(a, b - 1);
    }
  }

  /** A positive multiple of `d` is at least `d`. */
  lemma MulAtLeast(x: int, d: int)
    requires x >= 1 && d > 0
    ensures x * d >= d
  {
  }

  /** Eight is less than ten, so `2^(3k) <= 10^k`. */
  lemma {:induction false} Pow2Pow10(k: nat)
    ensures Pow2(3 * k) <= Pow10(k)
  {
    if k > 0 {
      Pow2Pow10(k - 1);
      assert Pow2(3 * k) == 8 * Pow2(3 * (k - 1)) by {
        assert Pow2(3 * k) == 2 * Pow2(3 * k - 1);
        assert Pow2(3 * k - 1) == 2 * Pow2(3 * k - 2);
        assert Pow2(3 * k - 2) == 2 * Pow2(3 * (k - 1));
      }
    }
  }

  /** A number below `10^k` prints in at most `k` digits. */
  lemma {:induction false} NatToStringWidth(n: nat, k: nat)
    requires 1 <= k && n < Pow10(k)
    ensures |NatToString(n)| <= k
  {
    if n >= 10 {
      assert Pow10(k) == 10 * Pow10(k - 1);
      NatToStringWidth(n / 10, k - 1);
    }
  }

  /** `Zeros(k)`: `k` zero digits. */
  function Zeros(k: nat): (r: string)
    ensures |r| == k && AllDigits(r)
  {
    if k == 0 then "" else "0" + Zeros(k - 1)
  }

  /** `s` left-padded with zeros to width `w`, as `%0wd` does. */
  function ZeroPad(s: string, w: nat): (r: string)
    ensures |r| == if |s| >= w then |s| else w
  {
    if |s| >= w then s else Zeros(w - |s|) + s
  }

  /** A leading zero does not change the value of a numeral. */
  lemma {:induction false} LeadingZeroValue(s: string)
    requires AllDigits(s)
    ensures DigitsValue("0" + s) == DigitsValue(s)
  {
    if |s| > 0 {
      LeadingZeroValue(s[..|s| - 1]);
      assert ("0" + s)[..|s|] == "0" + s[..|s| - 1];
    }
  }

  lemma {:induction false} ZerosValue(k: nat, s: string)
    requires AllDigits(s)
    ensures DigitsValue(Zeros(k) + s) == DigitsValue(s)
  {
    if k > 0 {
      var rest := Zeros(k - 1) + s;
      assert AllDigits(rest);
      ZerosValue(k - 1, s);
      assert Zeros(k) + s == "0" + rest;
      LeadingZeroValue(rest);
    } else {
      assert Zeros(k) + s == s;
    }
  }

  /** Zero padding is value-preserving. */
  lemma ZeroPadValue(n: nat, w: nat)
    ensures AllDigits(ZeroPad(NatToString(n), w))
    ensures DigitsValue(ZeroPad(NatToString(n), w)) == n
  {
    var s := NatToString(n);
    if |s| < w {
      ZerosValue(w - |s|, s);
    }
  }

  /** Any fixed-width field of digits is the zero-padded numeral of its value. */
  lemma {:induction false} ZeroPadOfValue(t: string)
    requires |t| >= 1 && AllDigits(t)
    ensures ZeroPad(NatToString(DigitsValue(t)), |t|) == t
  {
    if t[0] == '0' && |t| > 1 {
      var rest := t[1..];
      assert t == "0" + rest;
      assert DigitsValue(t) == DigitsValue(rest) by {
        LeadingZeroValue(rest);
      }
      ZeroPadOfValue(rest);
      PadOneMore(NatToString(DigitsValue(rest)), rest);
    } else {
      assert IsCanonical(t);
      NatToStringOfValue(t);
    }
  }

  /** Padding to one more place puts one more zero in front. */
  lemma PadOneMore(s: string, padded: string)
    requires ZeroPad(s, |padded|) == padded
    ensures ZeroPad(s, |padded| + 1) == "0" + padded
  {
    var pad := Zeros(|padded| - |s|);
    assert padded == pad + s;
    assert Zeros(|padded| + 1 - |s|) == "0" + pad;
    assert ("0" + pad) + s == "0" + (pad + s);
  }

  /** Every canonical numeral is what `str` prints for its own value: the
      inverse direction of `NatToString`'s contract. */
  lemma {:induction false} NatToStringOfValue(s: string)
    requires IsCanonical(s)
    ensures NatToString(DigitsValue(s)) == s
  {
    if |s| > 1 {
      var p := s[..|s| - 1];
      assert p[0] == s[0];
      assert DigitsValue(p) >= 1 by { LeadingDigitPositive(p); }
      NatToStringOfValue(p);
      var n := DigitsValue(s);
      assert n / 10 == DigitsValue(p) && n % 10 == DigitValue(s[|s| - 1]);
      assert s == p + [s[|s| - 1]];
    }
  }

  lemma {:induction false} LeadingDigitPositive(s: string)
    requires |s| >= 1 && AllDigits(s) && s[0] != '0'
    ensures DigitsValue(s) >= 1
  {
    if |s| > 1 {
      LeadingDigitPositive(s[..|s| - 1]);
    }
  }

  /** `str(i)` for an integer: a minus sign before the magnitude when negative. */
  function IntToString(i: int): (r: string)
    ensures |r| >= 1
    ensures r[0] == '-' <==> i < 0
  {
    if i < 0 then "-" + NatToString(-i) else NatToString(i)
  }

  /** Digits optionally separated by single underscores, starting and ending
      with a digit (the `digitpart` of Python's numeric literals). */
  predicate IsDigitPart(s: string) {
    |s| >= 1 && IsDigit(s[0]) && IsDigit(s[|s| - 1])
    && (forall i :: 0 <= i < |s| ==> IsDigit(s[i]) || s[i] == '_')
    && NoDoubleUnderscore(s)
  }

  /** No two underscores in a row. */
  predicate NoDoubleUnderscore(s: string) {
    |s| < 2 || (!(s[0] == '_' && s[1] == '_') && NoDoubleUnderscore(s[1..]))
  }

  lemma {:induction false} AllDigitsNoUnderscore(s: string)
    requires AllDigits(s)
    ensures NoDoubleUnderscore(s)
  {
    if |s| >= 2 {
      AllDigitsNoUnderscore(s[1..]);
    }
  }

  /** The digits of a digit part, underscores removed. */
  function Digits(s: string): (r: string)
    requires forall i :: 0 <= i < |s| ==> IsDigit(s[i]) || s[i] == '_'
    ensures AllDigits(r)
    ensures |r| <= |s|
  {
    if |s| == 0 then ""
    else if s[0] == '_' then Digits(s[1..])
    else [s[0]] + Digits(s[1..])
  }

  lemma {:induction false} DigitsOfAllDigits(s: string)
    requires AllDigits(s)
    ensures Digits(s) == s
  {
    if |s| > 0 {
      DigitsOfAllDigits(s[1..]);
      assert [s[0]] + s[1..] == s;
    }
  }

  /** Splits an optional leading sign off: (negative, rest). */
  function SplitSign(t: string): (r: (bool, string))
    ensures r.1 == if |t| > 0 && (t[0] == '+' || t[0] == '-') then t[1..] else t
    ensures r.0 <==> |t| > 0 && t[0] == '-'
  {
    if |t| > 0 && (t[0] == '+' || t[0] == '-') then (t[0] == '-', t[1..]) else (false, t)
  }

  /** Python's `int(text)`: surrounding whitespace, an optional sign, then a
      digit part. `None` where Python raises `ValueError`. */
  function ParseInt(text: string): (r: Option<int>)
    ensures r.Some? <==> IsDigitPart(SplitSign(Strip(text)).1)
    ensures r.Some? && r.value != 0 ==> (r.value < 0 <==> SplitSign(Strip(text)).0)
  {
    var (negative, body) := SplitSign(Strip(text));
    if IsDigitPart(body) then
      var n: int := DigitsValue(Digits(body));
      Some(if negative then -n else n)
    else None
  }

  /** `int(str(i)) == i`. */
  lemma IntRoundTrip(i: int)
    ensures ParseInt(IntToString(i)) == Some(i)
  {
    var s := IntToString(i);
    var digits := NatToString(if i < 0 then -i else i);
    IntToStringSign(i);
    StripStripped(s);
    DigitPartOfNumeral(digits);
    IntOfParts(s, i < 0, digits);
  }

  /** `str(i)` is already stripped, and its sign splits off as `-` exactly
      for a negative number. */
  lemma IntToStringSign(i: int)
    ensures IsStripped(IntToString(i))
    ensures SplitSign(IntToString(i)) == (i < 0, NatToString(if i < 0 then -i else i))
  {
    var digits := NatToString(if i < 0 then -i else i);
    assert IsDigit(digits[0]) && IsDigit(digits[|digits| - 1]);
  }

  /** A numeral is a digit part whose digits are itself. */
  lemma DigitPartOfNumeral(digits: string)
    requires IsCanonical(digits)
    ensures IsDigitPart(digits) && Digits(digits) == digits
  {
    AllDigitsNoUnderscore(digits);
    DigitsOfAllDigits(digits);
  }

  /** `int` of text whose sign and digit part are known. */
  lemma IntOfParts(text: string, negative: bool, body: string)
    requires SplitSign(Strip(text)) == (negative, body) && IsDigitPart(body)
    ensures var n: int := DigitsValue(Digits(body)); ParseInt(text) == Some(if negative then -n else n)
  {
  }

  /** What `float(text)` accepts, kept as the parts that decide truthiness. */
  datatype FloatLiteral =
    | Infinity(negative: bool)
    | NaN
    | Finite(negative: bool, integerDigits: string, fractionDigits: string, exponent: int)

  /** The mantissa digits of a finite literal read as one integer `m` and
      its scale, the exponent less the number of fraction digits: the
      literal's exact value is `m * 10^scale`. */
  function Mantissa(f: FloatLiteral): string
    requires f.Finite?
  {
    f.integerDigits + f.fractionDigits
  }

  function Scale(f: FloatLiteral): int
    requires f.Finite?
  {
    f.exponent - |f.fractionDigits|
  }

  /** `m * 10^scale` is at most `2^-1075`, half the smallest subnormal
      double, so the correctly rounded conversion (ties to even) gives
      `0.0`. */
  predicate Underflows(m: nat, scale: int) {
    scale < 0 && m * Pow2(1075) <= Pow10(-scale)
  }

  /** `2^1075` is at least sixteen. */
  lemma UnderflowBound()
    ensures Pow2(1075) >= 16
  {
    assert Pow2(4) == 16;
    Pow2Monotone(4, 1075);
  }

  /** `f` is falsy in Python (`not f`) exactly when it converts to a zero:
      every digit of the mantissa is `0`, whatever the sign and exponent, or
      the value is so small that it rounds to zero. Infinities and NaN are
      truthy. */
  predicate IsZero(f: FloatLiteral) {
    f.Finite?
    && (((forall i :: 0 <= i < |f.integerDigits| ==> f.integerDigits[i] == '0')
         && (forall i :: 0 <= i < |f.fractionDigits| ==> f.fractionDigits[i] == '0'))
        || (AllDigits(Mantissa(f)) && Underflows(DigitsValue(Mantissa(f)), Scale(f))))
  }

  function LowerAscii(s: string): (r: string)
    ensures |r| == |s|
  {
    if |s| == 0 then ""
    else [if 'A' <= s[0] <= 'Z' then (s[0] as int + 32) as char else s[0]] + LowerAscii(s[1..])
  }

  /** The character of `LowerAscii(s)` at `i`: `s[i]`, lowered when it is an
      ASCII capital. */
  lemma {:induction false} LowerAsciiAt(s: string, i: nat)
    requires i < |s|
    ensures LowerAscii(s)[i] == if 'A' <= s[i] <= 'Z' then (s[i] as int + 32) as char else s[i]
  {
    if i > 0 {
      LowerAsciiAt(s[1..], i - 1);
    }
  }

  /** Index of the first `e` or `E`, or `|s|` if there is none. */
  function ExponentMark(s: string): (k: nat)
    ensures k <= |s|
    ensures k < |s| ==> s[k] == 'e' || s[k] == 'E'
    ensures forall i :: 0 <= i < k ==> s[i] != 'e' && s[i] != 'E'
  {
    if |s| == 0 || s[0] == 'e' || s[0] == 'E' then 0 else 1 + ExponentMark(s[1..])
  }

  /** Index of the first `.`, or `|s|` if there is none. */
  function PointMark(s: string): (k: nat)
    ensures k <= |s|
    ensures k < |s| ==> s[k] == '.'
    ensures forall i :: 0 <= i < k ==> s[i] != '.'
  {
    if |s| == 0 || s[0] == '.' then 0 else 1 + PointMark(s[1..])
  }

  /** The exponent after `e`: an optional sign and a digit part. */
  function ParseExponent(s: string): (r: Option<int>)
    ensures r.Some? ==> |s| >= 1
  {
    var (negative, body) := SplitSign(s);
    if IsDigitPart(body) then
      var n: int := DigitsValue(Digits(body));
      Some(if negative then -n else n)
    else None
  }

  /** A mantissa is `digitpart`, `digitpart.`, `digitpart.digitpart` or
      `.digitpart`. */
  function ParseMantissa(s: string): (r: Option<(string, string)>)
  {
    var p := PointMark(s);
    var whole := s[..p];
    if p == |s| then
      if IsDigitPart(whole) then Some((Digits(whole), "")) else None
    else
      var fraction := s[p + 1..];
      if (whole == "" || IsDigitPart(whole)) && (fraction == "" || IsDigitPart(fraction))
         && (whole != "" || fraction != "")
      then Some((if whole == "" then "" else Digits(whole), if fraction == "" then "" else Digits(fraction)))
      else None
  }

  /** Python's `float(text)`: `None` where it raises `ValueError`. */
  function ParseFloat(text: string): (r: Option<FloatLiteral>)
    ensures r.Some? && r.value.Finite? ==> |r.value.integerDigits| + |r.value.fractionDigits| >= 1
  {
    var (negative, body) := SplitSign(Strip(text));
    var lower := LowerAscii(body);
    if lower == "inf" || lower == "infinity" then Some(Infinity(negative))
    else if lower == "nan" then Some(NaN)
    else
      var e := ExponentMark(body);
      var exponent := if e == |body| then Some(0) else ParseExponent(body[e + 1..]);
      match (ParseMantissa(body[..e]), exponent)
      case (Some((whole, fraction)), Some(x)) =>
        assert |whole| + |fraction| >= 1 by { MantissaNonEmpty(body[..e]); }
        Some(Finite(negative, whole, fraction, x))
      case _ => None
  }

  lemma MantissaNonEmpty(s: string)
    requires ParseMantissa(s).Some?
    ensures |ParseMantissa(s).value.0| + |ParseMantissa(s).value.1| >= 1
  {
    var p := PointMark(s);
    var whole := s[..p];
    var fraction := if p < |s| then s[p + 1..] else "";
    if p < |s| && whole != "" {
      assert IsDigit(whole[0]);
      assert Digits(whole) == [whole[0]] + Digits(whole[1..]);
    } else if p < |s| {
      assert IsDigit(fraction[0]);
      assert Digits(fraction) == [fraction[0]] + Digits(fraction[1..]);
    } else {
      assert IsDigit(whole[0]);
      assert Digits(whole) == [whole[0]] + Digits(whole[1..]);
    }
  }

  /** `float` reads a version field `d.d` such as `2.3`, or `1.9`, as a
      number, and as a truthy one unless both digits are zero. */
  lemma FloatOfSimpleDecimal(s: string)
    requires |s| == 3 && IsDigit(s[0]) && s[1] == '.' && IsDigit(s[2])
    ensures ParseFloat(s) == Some(Finite(false, s[..1], s[2..], 0))
    ensures IsZero(ParseFloat(s).value) <==> s[0] == '0' && s[2] == '0'
  {
    assert !IsSpace(s[0]) && !IsSpace(s[2]);
    assert IsStripped(s);
    StripStripped(s);
    assert SplitSign(s) == (false, s);
    assert LowerAscii(s)[0] == s[0];
    assert ExponentMark(s) == 3;
    SimpleMantissa(s);
    FloatOfParts(s, false, s, 3, s[..1], s[2..], 0);
    SimpleDecimalZero(s);
  }

  /** A `d.d` literal is zero only when both digits are: `0.1` is far above
      the underflow bound. */
  lemma SimpleDecimalZero(s: string)
    requires |s| == 3 && IsDigit(s[0]) && s[1] == '.' && IsDigit(s[2])
    ensures IsZero(Finite(false, s[..1], s[2..], 0)) <==> s[0] == '0' && s[2] == '0'
  {
    var f := Finite(false, s[..1], s[2..], 0);
    var m := s[..1] + s[2..];
    assert Mantissa(f) == m && Scale(f) == -1;
    if s[0] != '0' || s[2] != '0' {
      assert f.integerDigits[0] != '0' || f.fractionDigits[0] != '0';
      assert m[..1] == s[..1] && m[1] == s[2] && s[..1][..0] == "";
      assert DigitsValue(s[..1]) == DigitValue(s[0]);
      var n := DigitsValue(m);
      assert n == 10 * DigitValue(s[0]) + DigitValue(s[2]);
      assert n >= 1;
      var p := Pow2(1075);
      UnderflowBound();
      MulAtLeast(n, p);
      assert Pow10(1) == 10;
      assert !Underflows(n, -1);
    }
  }

  lemma SimpleMantissa(s: string)
    requires |s| == 3 && IsDigit(s[0]) && s[1] == '.' && IsDigit(s[2])
    ensures s[..3] == s
    ensures ParseMantissa(s) == Some((s[..1], s[2..]))
  {
    assert s[..3] == s;
    assert PointMark(s) == 1;
    assert IsDigitPart(s[..1]) && IsDigitPart(s[2..]);
    assert Digits(s[..1]) == s[..1] && Digits(s[2..]) == s[2..];
  }

  /** `float` of text whose parts are known: the sign, the lower-cased body
      that names no special value, the exponent and the mantissa digits. */
  lemma FloatOfParts(text: string, negative: bool, body: string, e: nat, whole: string, fraction: string, x: int)
    requires SplitSign(Strip(text)) == (negative, body)
    requires LowerAscii(body) != "inf" && LowerAscii(body) != "infinity" && LowerAscii(body) != "nan"
    requires e == ExponentMark(body)
    requires (if e == |body| then Some(0) else ParseExponent(body[e + 1..])) == Some(x)
    requires ParseMantissa(body[..e]) == Some((whole, fraction))
    ensures ParseFloat(text) == Some(Finite(negative, whole, fraction, x))
  {
  }

  /** A literal too small for a double reads as zero: the literal `1e-k`
      (mantissa `1`, exponent `-k`) for every `k >= 359`, where
      `2^1075 <= 2^(3k) <= 10^k`. */
  lemma TinyLiteralIsZero(k: nat)
    requires k >= 359
    ensures IsZero(Finite(false, "1", "", -(k as int)))
  {
    var f := Finite(false, "1", "", -(k as int));
    assert Mantissa(f) == "1" && Scale(f) == -(k as int);
    assert DigitsValue("1") == 1 by { assert "1"[..0] == ""; }
    Pow2Monotone(1075, 3 * k);
    Pow2Pow10(k);
    assert Underflows(1, -(k as int));
  }

  /** `float("1e-400")` reads the literal with mantissa `1` and exponent
      `-400`, which is zero: below the smallest subnormal double. */
  lemma FloatOfTinyText()
    ensures ParseFloat("1e-400") == Some(Finite(false, "1", "", -400))
    ensures IsZero(ParseFloat("1e-400").value)
  {
    TinyTextParses();
    TinyLiteralIsZero(400);
  }

  lemma TinyTextParses()
    ensures ParseFloat("1e-400") == Some(Finite(false, "1", "", -400))
  {
    var t := "1e-400";
    TinyTextStripped();
    TinyTextParts();
    FloatOfParts(t, false, t, 1, "1", "", -400);
  }

  /** The parts of `1e-400` as `float` finds them: not a special name, the
      mark at index 1, the exponent `-400` and the mantissa `1`. */
  lemma TinyTextParts()
    ensures var t := "1e-400";
            LowerAscii(t) != "inf" && LowerAscii(t) != "infinity" && LowerAscii(t) != "nan"
            && 1 == ExponentMark(t)
            && (if 1 == |t| then Some(0) else ParseExponent(t[1 + 1..])) == Some(-400)
            && ParseMantissa(t[..1]) == Some(("1", ""))
  {
    TinyTextMarks();
    TinyExponent();
    TinyMantissa();
  }

  lemma TinyTextStripped()
    ensures SplitSign(Strip("1e-400")) == (false, "1e-400")
  {
    var t := "1e-400";
    assert !IsSpace(t[0]) && !IsSpace(t[|t| - 1]);
    UnsignedStripped(t);
  }

  /** Text that is already stripped and starts with a digit has no sign. */
  lemma UnsignedStripped(t: string)
    requires IsStripped(t) && |t| >= 1 && IsDigit(t[0])
    ensures SplitSign(Strip(t)) == (false, t)
  {
    StripStripped(t);
  }

  lemma TinyTextMarks()
    ensures LowerAscii("1e-400") == "1e-400"
    ensures ExponentMark("1e-400") == 1
    ensures "1e-400"[2..] == "-400" && "1e-400"[..1] == "1"
  {
    var t := "1e-400";
    assert t[0] != 'e' && t[0] != 'E' && t[1] == 'e';
    assert ExponentMark(t[1..]) == 0;
    var l := LowerAscii(t);
    forall i | 0 <= i < |t| ensures l[i] == t[i] {
      LowerAsciiAt(t, i);
    }
  }

  lemma TinyExponent()
    ensures ParseExponent("-400") == Some(-400)
  {
    var x := "-400";
    assert SplitSign(x) == (true, "400");
    var body := "400";
    assert NoDoubleUnderscore(body) by {
      assert body[1..] == "00" && body[1..][1..] == "0";
    }
    assert IsDigitPart(body);
    assert Digits(body) == body by {
      assert body[1..] == "00" && body[1..][1..] == "0" && body[1..][1..][1..] == "";
    }
    assert DigitsValue(body) == 400 by {
      assert body[..2] == "40" && body[..2][..1] == "4" && body[..2][..1][..0] == "";
      assert DigitsValue("4") == 4;
      assert DigitsValue("40") == 40;
    }
  }

  lemma TinyMantissa()
    ensures ParseMantissa("1") == Some(("1", ""))
  {
    var m := "1";
    assert PointMark(m) == 1 by { assert PointMark(m[1..]) == 0; }
    assert m[..1] == m;
    assert IsDigitPart(m);
    assert Digits(m) == m by { assert m[1..] == ""; }
  }

  /** Text holding a character other than a digit, an underscore or the
      point is no mantissa. */
  lemma MantissaRefusesStray(s: string, i: nat)
    requires i < |s| && !IsDigit(s[i]) && s[i] != '_' && s[i] != '.'
    ensures ParseMantissa(s).None?
  {
    var p := PointMark(s);
    if i < p {
      assert s[i] == s[..p][i];
    } else {
      assert p < i;
      assert s[i] == s[p + 1..][i - p - 1];
    }
  }

  /** Text holding a character other than a digit, an underscore or a sign
      is no exponent. */
  lemma ExponentRefusesStray(s: string, i: nat)
    requires i < |s| && !IsDigit(s[i]) && s[i] != '_' && s[i] != '+' && s[i] != '-'
    ensures ParseExponent(s).None?
  {
    if 0 < i && (s[0] == '+' || s[0] == '-') {
      assert s[i] == s[1..][i - 1];
    }
  }

  /** Text is refused when, under its sign, it names no special value and
      holds a character that no part of a number can hold: not a digit, an
      underscore, the point, an exponent mark or a sign. */
  lemma FloatRefusesStrayChar(text: string, i: nat)
    requires var body := SplitSign(Strip(text)).1;
             i < |body| && !IsDigit(body[i]) && body[i] !in "_.eE+-"
    requires var lower := LowerAscii(SplitSign(Strip(text)).1);
             lower != "inf" && lower != "infinity" && lower != "nan"
    ensures ParseFloat(text).None?
  {
    var body := SplitSign(Strip(text)).1;
    var e := ExponentMark(body);
    if i < e {
      assert body[..e][i] == body[i];
      MantissaRefusesStray(body[..e], i);
    } else {
      assert e < i;
      assert body[e + 1..][i - e - 1] == body[i];
      ExponentRefusesStray(body[e + 1..], i - e - 1);
    }
    FloatRefusedParts(text, body, e);
  }

  /** A lone point is not a float. */
  lemma FloatRefusesPoint()
    ensures ParseFloat(".").None?
  {
    assert IsStripped(".");
    StripStripped(".");
    assert SplitSign(".") == (false, ".");
    assert ExponentMark(".") == 1 && "."[..1] == ".";
    assert PointMark(".") == 0 && "."[..0] == "" && "."[1..] == "";
  }

  /** Text that ends in an exponent mark is not a float, whatever comes
      before it: the exponent has no digits. */
  lemma FloatRefusesBareExponent(m: string)
    ensures ParseFloat(m + "e").None? && ParseFloat(m + "E").None?
  {
    StripKeepsLast(m, 'e');
    EndsInMark(m + "e", 'e');
    StripKeepsLast(m, 'E');
    EndsInMark(m + "E", 'E');
  }

  lemma EndsInMark(text: string, c: char)
    requires c == 'e' || c == 'E'
    requires |Strip(text)| >= 1 && Strip(text)[|Strip(text)| - 1] == c
    ensures ParseFloat(text).None?
  {
    var t := Strip(text);
    SignKeepsLast(t, c);
    BodyRefused(text, SplitSign(t).1, c);
  }

  /** Text whose body ends in an exponent mark is not a float. */
  lemma BodyRefused(text: string, body: string, c: char)
    requires c == 'e' || c == 'E'
    requires SplitSign(Strip(text)).1 == body && |body| >= 1 && body[|body| - 1] == c
    ensures ParseFloat(text).None?
  {
    BodyEndsInMark(body, c);
    FloatRefusedParts(text, body, ExponentMark(body));
  }

  /** Splitting the sign off text that ends in a character other than a
      sign keeps that character last. */
  lemma SignKeepsLast(t: string, c: char)
    requires c != '+' && c != '-'
    requires |t| >= 1 && t[|t| - 1] == c
    ensures |SplitSign(t).1| >= 1 && SplitSign(t).1[|SplitSign(t).1| - 1] == c
  {
  }

  /** A body ending in an exponent mark names no special value, and the
      text after its first mark is no exponent. */
  lemma BodyEndsInMark(body: string, c: char)
    requires c == 'e' || c == 'E'
    requires |body| >= 1 && body[|body| - 1] == c
    ensures LowerAscii(body) != "inf" && LowerAscii(body) != "infinity" && LowerAscii(body) != "nan"
    ensures ExponentMark(body) < |body| && ParseExponent(body[ExponentMark(body) + 1..]).None?
  {
    LowerAsciiAt(body, |body| - 1);
    EndsInE(LowerAscii(body));
    MarkBeforeEnd(body, c);
  }

  /** The special names end in `f`, `y` or `n`. */
  lemma EndsInE(lower: string)
    requires |lower| >= 1 && lower[|lower| - 1] == 'e'
    ensures lower != "inf" && lower != "infinity" && lower != "nan"
  {
  }

  lemma MarkBeforeEnd(body: string, c: char)
    requires c == 'e' || c == 'E'
    requires |body| >= 1 && body[|body| - 1] == c
    ensures ExponentMark(body) < |body| && ParseExponent(body[ExponentMark(body) + 1..]).None?
  {
    var e := ExponentMark(body);
    assert e < |body|;
    EndsInLetter(body[e + 1..], c);
  }

  /** Text ending in a letter is no exponent. */
  lemma EndsInLetter(x: string, c: char)
    requires !IsDigit(c)
    requires x != "" ==> x[|x| - 1] == c
    ensures ParseExponent(x).None?
  {
    var body := SplitSign(x).1;
    assert body == "" || body[|body| - 1] == c;
  }

  /** `float` of text whose body names no special value and whose mantissa
      or exponent does not read. */
  lemma FloatRefusedParts(text: string, body: string, e: nat)
    requires SplitSign(Strip(text)).1 == body
    requires LowerAscii(body) != "inf" && LowerAscii(body) != "infinity" && LowerAscii(body) != "nan"
    requires e == ExponentMark(body)
    requires ParseMantissa(body[..e]).None? || (e < |body| && ParseExponent(body[e + 1..]).None?)
    ensures ParseFloat(text).None?
  {
  }
}
