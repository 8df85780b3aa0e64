/** Numbers as text: the 64-bit integer and floating-point grammars of the standard parsers. */
module Numerals {
  import opened Wrappers

  const MIN64: int := -0x8000_0000_0000_0000
  const MAX64: int := 0x7fff_ffff_ffff_ffff

  predicate Fits64(n: int) {
    MIN64 <= n <= MAX64
  }

  type int64 = n: int | Fits64(n)

  /** Two's-complement wrap-around of release-mode arithmetic. */
  function Wrap64(n: int): (r: int)
    ensures Fits64(r)
    ensures Fits64(n) ==> r == n
  {
    (n - MIN64) % 0x1_0000_0000_0000_0000 + MIN64
  }

  // ----- Digits -----

  predicate Digit(c: char) {
    '0' <= c <= '9'
  }

  predicate Digits(s: string) {
    forall i :: 0 <= i < |s| ==> Digit(s[i])
  }

  function DigitsValue(s: string): nat
    requires Digits(s)
  {
    if s == "" then 0 else DigitsValue(s[..|s| - 1]) * 10 + (s[|s| - 1] as int - '0' as int)
  }

  function DecimalText(n: nat): string {
    var digit := [('0' as int + n % 10) as char];
    if n < 10 then digit else DecimalText(n / 10) + digit
  }

  /** The decimal text of an integer. */
  function IntText(n: int): string {
    if n < 0 then "-" + DecimalText(-n) else DecimalText(n)
  }

  lemma {:induction false} DecimalRoundTrip(n: nat)
    ensures var s := DecimalText(n); s != "" && Digits(s) && DigitsValue(s) == n
  {
    var s := DecimalText(n);
    if n < 10 {
      assert s[..0] == "";
    } else {
      DecimalRoundTrip(n / 10);
      assert s[..|s| - 1] == DecimalText(n / 10);
    }
  }

  // ----- Integers -----

  datatype Signed = Signed(negative: bool, rest: string)

  /** An optional sign and what follows it. */
  function SplitSign(s: string): Signed {
    if s != "" && s[0] == '-' then Signed(true, s[1..])
    else if s != "" && s[0] == '+' then Signed(false, s[1..])
    else Signed(false, s)
  }

  function ParseI64(s: string): Option<int> {
    var signed := SplitSign(s);
    if signed.rest == "" || !Digits(signed.rest) then None
    else
      var magnitude: int := DigitsValue(signed.rest);
      var value := if signed.negative then -magnitude else magnitude;
      if Fits64(value) then Some(value) else None
  }

  lemma IntTextSign(n: int)
    ensures SplitSign(IntText(n)) == Signed(n < 0, DecimalText(if n < 0 then -n else n))
    ensures Digits(DecimalText(if n < 0 then -n else n))
  {
    var magnitude := if n < 0 then -n else n;
    DecimalRoundTrip(magnitude);
    assert Digit(DecimalText(magnitude)[0]);
    if n < 0 {
      assert IntText(n)[1..] == DecimalText(magnitude);
    }
  }

  lemma IntTextParses(n: int)
    ensures ParseI64(IntText(n)) == if Fits64(n) then Some(n) else None
  {
    IntTextSign(n);
    DecimalRoundTrip(if n < 0 then -n else n);
  }

  // ----- Floating point -----

  datatype F64 = Finite(value: real) | PosInf | NegInf | NaN

  predicate Less(a: F64, b: F64) {
    match (a, b)
    case (NaN, _) => false
    case (_, NaN) => false
    case (NegInf, _) => !b.NegInf?
    case (_, PosInf) => !a.PosInf?
    case (Finite(x), Finite(y)) => x < y
    case _ => false
  }

  /** A strict order of the numbers with the infinities at its ends; no number is neither below
      nor above anything. */
  lemma LessIsStrict(a: F64, b: F64, x: real, y: real)
    ensures Less(Finite(x), Finite(y)) <==> x < y
    ensures Less(a, b) ==> !Less(b, a) && !a.NaN? && !b.NaN?
    ensures Less(NegInf, a) <==> a.Finite? || a.PosInf?
    ensures Less(a, PosInf) <==> a.Finite? || a.NegInf?
    ensures !Less(a, NegInf) && !Less(PosInf, a)
  {
  }

  /** The characters before the first one in `stops`. */
  function Before(s: string, stops: set<char>): (r: string)
    ensures r <= s
  {
    if s == "" || s[0] in stops then "" else [s[0]] + Before(s[1..], stops)
  }

  /** The characters after the first one in `stops`, if there is one. */
  function After(s: string, stops: set<char>): Option<string> {
    var n := |Before(s, stops)|;
    if n == |s| then None else Some(s[n + 1..])
  }

  function Pow10(n: nat): (r: real)
    ensures r > 0.0
  {
    if n == 0 then 1.0 else 10.0 * Pow10(n - 1)
  }

  function Scale(mantissa: nat, exponent: int): real {
    if exponent >= 0 then mantissa as real * Pow10(exponent) else mantissa as real / Pow10(-exponent)
  }

  function ParseExponent(text: Option<string>): Option<int> {
    match text
    case None => Some(0)
    case Some(s) =>
      var signed := SplitSign(s);
      if signed.rest == "" || !Digits(signed.rest) then None
      else
        var magnitude: int := DigitsValue(signed.rest);
        Some(if signed.negative then -magnitude else magnitude)
  }

  /** The value of digits before and after a point, with an exponent. */
  function Assemble(whole: string, point: Option<string>, tail: Option<string>): Option<real> {
    var fraction := match point case None => "" case Some(f) => f;
    if whole + fraction == "" || !Digits(whole + fraction) then None
    else
      match ParseExponent(tail)
      case None => None
      case Some(exponent) => Some(Scale(DigitsValue(whole + fraction), exponent - |fraction|))
  }

  /** Digits, with at most one point, and an optional exponent. */
  function ParseDecimal(s: string): Option<real> {
    var mantissa := Before(s, {'e', 'E'});
    Assemble(Before(mantissa, {'.'}), After(mantissa, {'.'}), After(s, {'e', 'E'}))
  }

  function Lower(s: string): string {
    seq(|s|, i requires 0 <= i < |s| => if 'A' <= s[i] <= 'Z' then (s[i] as int + 32) as char else s[i])
  }

  /** The nearest floating-point number to the text's value, or None if it is not a number. */
  function ParseF64(round: real -> F64, s: string): Option<F64> {
    var signed := SplitSign(s);
    var word := Lower(signed.rest);
    if word == "inf" || word == "infinity" then Some(if signed.negative then NegInf else PosInf)
    else if word == "nan" then Some(NaN)
    else
      match ParseDecimal(signed.rest)
      case None => None
      case Some(value) => Some(round(if signed.negative then -value else value))
  }

  lemma {:induction false} BeforeDigits(s: string, stops: set<char>)
    requires Digits(s) && forall c :: c in stops ==> !Digit(c)
    ensures Before(s, stops) == s && After(s, stops).None?
  {
    if s != "" {
      BeforeDigits(s[1..], stops);
      assert Digit(s[0]) && s == [s[0]] + s[1..];
    }
  }

  lemma DigitsDecimal(s: string)
    requires s != "" && Digits(s)
    ensures ParseDecimal(s) == Some(DigitsValue(s) as real)
  {
    BeforeDigits(s, {'e', 'E'});
    BeforeDigits(s, {'.'});
    assert s + "" == s;
  }

  lemma DigitsNotWord(s: string)
    requires s != "" && Digits(s)
    ensures Lower(s) != "inf" && Lower(s) != "infinity" && Lower(s) != "nan"
  {
    assert Digit(s[0]) && Lower(s)[0] == s[0];
    assert "inf"[0] == 'i' && "infinity"[0] == 'i' && "nan"[0] == 'n';
  }

  /** The text of an integer reads as the nearest floating-point number. */
  lemma IntTextFloat(round: real -> F64, n: int)
    ensures ParseF64(round, IntText(n)) == Some(round(n as real))
  {
    var magnitude := if n < 0 then -n else n;
    var text := DecimalText(magnitude);
    IntTextSign(n);
    DecimalRoundTrip(magnitude);
    DigitsDecimal(text);
    DigitsNotWord(text);
  }

  /** A text that starts with some other character, and is not a special word, is no number. */
  lemma OddStart(round: real -> F64, s: string)
    requires s != "" && !Digit(s[0]) && s[0] !in {'+', '-', '.', 'e', 'E'}
    requires Lower(s) != "inf" && Lower(s) != "infinity" && Lower(s) != "nan"
    ensures ParseF64(round, s).None? && ParseI64(s).None?
  {
    var mantissa := Before(s, {'e', 'E'});
    assert mantissa != "" && mantissa[0] == s[0];
    var whole := Before(mantissa, {'.'});
    assert whole != "" && whole[0] == s[0];
    var fraction := match After(mantissa, {'.'}) case None => "" case Some(f) => f;
    assert (whole + fraction)[0] == s[0];
  }

  // ----- What texts denote -----

  /** Leading zeros change no value. */
  lemma {:induction false} LeadingZero(s: string)
    requires Digits(s)
    ensures Digits("0" + s) && DigitsValue("0" + s) == DigitsValue(s)
  {
    if s == "" {
      assert "0"[..0] == "";
    } else {
      LeadingZero(s[..|s| - 1]);
      assert ("0" + s)[..|s|] == "0" + s[..|s| - 1];
    }
  }

  /** Some digits, alone or after a plus sign, denote their value, and after a minus sign its
      negation. */
  predicate Denotes(s: string, digits: string, n: int) {
    && digits != "" && Digits(digits)
    && (|| ((s == digits || s == "+" + digits) && n == DigitsValue(digits))
        || (s == "-" + digits && n == -(DigitsValue(digits) as int)))
  }

  /** The integer grammar: exactly the 64-bit numbers some digits denote. */
  lemma ParseI64Iff(s: string, n: int)
    ensures ParseI64(s) == Some(n) <==> Fits64(n) && exists digits :: Denotes(s, digits, n)
  {
    if ParseI64(s) == Some(n) {
      var signed := SplitSign(s);
      assert s == "+" + signed.rest || s == "-" + signed.rest || s == signed.rest;
      assert Denotes(s, signed.rest, n);
    }
    if digits :| Fits64(n) && Denotes(s, digits, n) {
      assert Digit(digits[0]);
      if s == digits {
        assert SplitSign(s) == Signed(false, digits);
      } else {
        assert s[1..] == digits;
      }
    }
  }

  lemma {:induction false} BeforeStop(s: string, stop: char, rest: string, stops: set<char>)
    requires stop in stops && forall c :: c in s ==> c !in stops
    ensures Before(s + [stop] + rest, stops) == s && After(s + [stop] + rest, stops) == Some(rest)
  {
    var all := s + [stop] + rest;
    if s != "" {
      BeforeStop(s[1..], stop, rest, stops);
      assert all[1..] == s[1..] + [stop] + rest;
      assert s == [s[0]] + s[1..];
    }
    assert all[|s| + 1..] == rest;
  }

  lemma {:induction false} NoStop(s: string, stops: set<char>)
    requires forall c :: c in s ==> c !in stops
    ensures Before(s, stops) == s && After(s, stops).None?
  {
    if s != "" {
      NoStop(s[1..], stops);
      assert s == [s[0]] + s[1..];
    }
  }

  lemma DigitNot(s: string, stops: set<char>)
    requires Digits(s) && forall c :: c in stops ==> !Digit(c)
    ensures forall c :: c in s ==> c !in stops
  {
  }

  lemma PointParts(whole: string, fraction: string, s: string)
    requires Digits(whole) && Digits(fraction) && s == whole + ['.'] + fraction
    ensures Before(s, {'e', 'E'}) == s && After(s, {'e', 'E'}) == None
    ensures Before(s, {'.'}) == whole && After(s, {'.'}) == Some(fraction)
  {
    DigitNot(whole, {'.'});
    BeforeStop(whole, '.', fraction, {'.'});
    forall c | c in s ensures c !in {'e', 'E'} {
      assert c == '.' || Digit(c);
    }
    NoStop(s, {'e', 'E'});
  }

  /** A decimal point divides by ten for each digit after it. */
  lemma PointValue(whole: string, fraction: string)
    requires Digits(whole) && Digits(fraction) && whole + fraction != ""
    ensures Digits(whole + fraction)
    ensures ParseDecimal(whole + ['.'] + fraction) == Some(DigitsValue(whole + fraction) as real / Pow10(|fraction|))
  {
    PointParts(whole, fraction, whole + ['.'] + fraction);
    assert ParseExponent(None) == Some(0);
    ScaleDown(DigitsValue(whole + fraction), |fraction|);
  }

  lemma ScaleDown(mantissa: nat, n: nat)
    ensures Scale(mantissa, 0 - n) == mantissa as real / Pow10(n)
  {
  }

  lemma ExponentParts(digits: string, tail: string, s: string)
    requires digits != "" && Digits(digits) && s == digits + ['e'] + tail
    ensures ParseDecimal(s) == Assemble(digits, None, Some(tail))
  {
    DigitNot(digits, {'e', 'E'});
    DigitNot(digits, {'.'});
    BeforeStop(digits, 'e', tail, {'e', 'E'});
    NoStop(digits, {'.'});
  }

  lemma AssembleScaled(digits: string, tail: string, exponent: int)
    requires digits != "" && Digits(digits) && ParseExponent(Some(tail)) == Some(exponent)
    ensures Assemble(digits, None, Some(tail)) == Some(Scale(DigitsValue(digits), exponent))
  {
    assert digits + "" == digits;
  }

  /** An exponent scales by its power of ten. */
  lemma ExponentValue(digits: string, tail: string, exponent: int, s: string)
    requires digits != "" && Digits(digits) && s == digits + ['e'] + tail
    requires ParseExponent(Some(tail)) == Some(exponent)
    ensures ParseDecimal(s) == Some(Scale(DigitsValue(digits), exponent))
  {
    ExponentParts(digits, tail, s);
    AssembleScaled(digits, tail, exponent);
  }

  /** An exponent has digits. */
  lemma EmptyExponent(digits: string, tail: string)
    requires digits != "" && Digits(digits) && tail in ["", "+", "-"]
    ensures ParseDecimal(digits + ['e'] + tail) == None
  {
    ExponentParts(digits, tail, digits + ['e'] + tail);
    assert tail != "" ==> tail[1..] == "";
  }

  /** Scaling multiplies by a power of ten, or divides by one. */
  lemma ScaleBothWays(mantissa: nat, n: nat)
    ensures Scale(mantissa, n) == mantissa as real * Pow10(n)
    ensures Scale(mantissa, 0 - n) * Pow10(n) == mantissa as real
    ensures Pow10(n + 1) == 10.0 * Pow10(n) && Pow10(0) == 1.0
  {
  }

  /** The exponent is read as the number it is written as. */
  lemma ExponentOf(exponent: nat, text: string)
    requires text == DecimalText(exponent)
    ensures ParseExponent(Some(text)) == Some(exponent) && ParseExponent(Some(['-'] + text)) == Some(0 - exponent)
  {
    DecimalRoundTrip(exponent);
    assert Digit(text[0]);
    assert (['-'] + text)[1..] == text;
  }

  lemma SignsSplit(s: string)
    requires s != "" && s[0] !in {'+', '-'}
    ensures SplitSign(s) == SplitSign(['+'] + s) == Signed(false, s) && SplitSign(['-'] + s) == Signed(true, s)
  {
    assert (['+'] + s)[1..] == s && (['-'] + s)[1..] == s;
  }

  lemma FloatOf(round: real -> F64, s: string, signed: Signed, value: real)
    requires SplitSign(s) == signed && ParseDecimal(signed.rest) == Some(value)
    requires Lower(signed.rest) != "inf" && Lower(signed.rest) != "infinity" && Lower(signed.rest) != "nan"
    ensures ParseF64(round, s) == Some(round(if signed.negative then -value else value))
  {
  }

  /** A sign applies to the whole text. */
  lemma SignedFloat(round: real -> F64, s: string, value: real)
    requires ParseDecimal(s) == Some(value) && s != "" && s[0] !in {'+', '-'}
    requires !EitherCase(s, "inf") && !EitherCase(s, "infinity") && !EitherCase(s, "nan")
    ensures ParseF64(round, s) == ParseF64(round, ['+'] + s) == Some(round(value))
    ensures ParseF64(round, ['-'] + s) == Some(round(-value))
  {
    LowerIff(s, "inf");
    LowerIff(s, "infinity");
    LowerIff(s, "nan");
    SignsSplit(s);
    FloatOf(round, s, Signed(false, s), value);
    FloatOf(round, ['+'] + s, Signed(false, s), value);
    FloatOf(round, ['-'] + s, Signed(true, s), value);
  }

  /** The text is the word, each letter of it small or capital. */
  predicate EitherCase(s: string, word: string) {
    |s| == |word| && forall i :: 0 <= i < |s| ==> s[i] == word[i] || s[i] as int == word[i] as int - 32
  }

  lemma LowerIff(s: string, word: string)
    requires forall i :: 0 <= i < |word| ==> 'a' <= word[i] <= 'z'
    ensures Lower(s) == word <==> EitherCase(s, word)
  {
    if Lower(s) == word {
      forall i | 0 <= i < |s| ensures s[i] == word[i] || s[i] as int == word[i] as int - 32 {
        assert Lower(s)[i] == word[i];
      }
    }
  }

  /** The words for infinity and for no number, in any case and with any sign. */
  lemma Words(round: real -> F64, word: string, s: string)
    requires word != "" && word[0] !in {'+', '-'} && (s == word || s == ['+'] + word || s == ['-'] + word)
    ensures EitherCase(word, "inf") || EitherCase(word, "infinity") ==>
              ParseF64(round, s) == Some(if s == ['-'] + word then NegInf else PosInf)
    ensures EitherCase(word, "nan") ==> ParseF64(round, s) == Some(NaN)
  {
    LowerIff(word, "inf");
    LowerIff(word, "infinity");
    LowerIff(word, "nan");
    assert s == ['+'] + word || s == ['-'] + word ==> s[1..] == word;
    assert SplitSign(s).rest == word;
  }
}
