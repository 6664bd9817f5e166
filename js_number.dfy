/** Character classes of ECMA-262 that the receipt parsing depends on. */
module JsChars {

  /** WhiteSpace or LineTerminator (sections 12.2 and 12.3 of ECMA-262): the
      characters `\s` matches in a regular expression, and the same set as the
      StrWhiteSpaceChar that `Number` trims (section 7.1.4.1). */
  predicate IsWhiteSpace(c: char) {
    c == '\t' || c == '\U{000B}' || c == '\U{000C}' || c == ' ' || c == '\U{00A0}' || c == '\U{FEFF}'
    || c == '\U{1680}' || ('\U{2000}' <= c <= '\U{200A}') || c == '\U{202F}' || c == '\U{205F}'
    || c == '\U{3000}' || c == '\n' || c == '\r' || c == '\U{2028}' || c == '\U{2029}'
  }

  predicate IsAsciiLetter(c: char) {
    'a' <= c <= 'z' || 'A' <= c <= 'Z'
  }

  /** DecimalDigit of ECMA-262: ASCII digits only. */
  predicate IsDigit(c: char) {
    '0' <= c <= '9'
  }
}

/** JavaScript numbers as the bill total sees them, and `Number(string)`
    restricted to strings that hold no letters and no white space. */
module JsNumber {
  import opened JsChars

  /** A JavaScript number: NaN, or a finite value kept as an exact real. */
  datatype Num = NaN | Val(value: real)

  /** JavaScript `+` on numbers: NaN absorbs everything, otherwise the exact sum. */
  function Add(x: Num, y: Num): (z: Num)
    ensures z.NaN? <==> x.NaN? || y.NaN?
    ensures z.Val? ==> z.value == x.value + y.value
  {
    if x.NaN? || y.NaN? then NaN else Val(x.value + y.value)
  }

  /** Unary minus on numbers. */
  function Negate(x: Num): (z: Num)
    ensures z.NaN? <==> x.NaN?
    ensures z.Val? ==> z.value == -x.value
  {
    if x.NaN? then NaN else Val(-x.value)
  }

  lemma AddAssociative(x: Num, y: Num, z: Num)
    ensures Add(Add(x, y), z) == Add(x, Add(y, z))
  {
  }

  predicate AllDigits(s: string) {
    forall i :: 0 <= i < |s| ==> IsDigit(s[i])
  }

  /** The value of a run of decimal digits, most significant first. */
  function DigitsValue(s: string): nat
    requires AllDigits(s)
    decreases |s|
  {
    if s == [] then 0 else 10 * DigitsValue(s[..|s| - 1]) + (s[|s| - 1] as int - '0' as int)
  }

  /** The value of the digits after a decimal point: a fraction in [0, 1). */
  function FractionValue(f: string): (v: real)
    requires AllDigits(f)
    ensures 0.0 <= v < 1.0
    decreases |f|
  {
    if f == [] then 0.0 else ((f[0] as int - '0' as int) as real + FractionValue(f[1..])) / 10.0
  }

  /** The length of the run of digits that starts the string. */
  function LeadingDigits(s: string): (n: nat)
    ensures n <= |s|
    ensures AllDigits(s[..n])
    ensures n < |s| ==> !IsDigit(s[n])
    decreases |s|
  {
    if s == [] || !IsDigit(s[0]) then 0 else 1 + LeadingDigits(s[1..])
  }

  /** The strings `Number` is modelled on: no letter (so no `Infinity`, no
      exponent, no `0x`/`0o`/`0b` prefix) and no white space to trim. */
  predicate NoLetterOrSpace(s: string) {
    forall i :: 0 <= i < |s| ==> !IsAsciiLetter(s[i]) && !IsWhiteSpace(s[i])
  }

  /** StrUnsignedDecimalLiteral without exponent: `D+`, `D+ . D*` or `. D+`. */
  function ParseUnsigned(s: string): Num {
    var n := LeadingDigits(s);
    if n == |s| then
      if n == 0 then NaN else Val(DigitsValue(s[..n]) as real)
    else if s[n] != '.' then NaN
    else
      var frac := s[n + 1..];
      if !AllDigits(frac) || (n == 0 && frac == []) then NaN
      else Val(DigitsValue(s[..n]) as real + FractionValue(frac))
  }

  /** `Number(s)`, StringToNumber of section 7.1.4.1 of ECMA-262, on a string
      without letters or white space: the empty string is 0, an optional sign
      may precede the unsigned literal, anything else is NaN. */
  function ParseNumber(s: string): Num
    requires NoLetterOrSpace(s)
  {
    if s == [] then Val(0.0)
    else if s[0] == '-' then Negate(ParseUnsigned(s[1..]))
    else if s[0] == '+' then ParseUnsigned(s[1..])
    else ParseUnsigned(s)
  }

  datatype Sign = Unsigned | Plus | Minus

  function SignText(sign: Sign): string {
    match sign
    case Unsigned => ""
    case Plus => "+"
    case Minus => "-"
  }

  /** A StrDecimalLiteral without exponent, as its parts: a sign, the digits
      before the point, whether a point is written, the digits after it. */
  datatype Decimal = Decimal(sign: Sign, whole: string, point: bool, fraction: string)
  {
    predicate Valid() {
      AllDigits(whole) && AllDigits(fraction) &&
      if point then whole != [] || fraction != [] else whole != [] && fraction == []
    }

    function Text(): string {
      SignText(sign) + Body()
    }

    /** The literal without its sign. */
    function Body(): string {
      whole + (if point then "." + fraction else "")
    }

    function Magnitude(): real
      requires Valid()
    {
      DigitsValue(whole) as real + FractionValue(fraction)
    }

    function Value(): real
      requires Valid()
    {
      if sign == Minus then -Magnitude() else Magnitude()
    }
  }

  ghost predicate IsDecimalLiteral(s: string) {
    exists d: Decimal :: d.Valid() && d.Text() == s
  }

  lemma {:induction false} LeadingDigitsOf(w: string, rest: string)
    requires AllDigits(w)
    requires rest == [] || !IsDigit(rest[0])
    ensures LeadingDigits(w + rest) == |w|
    decreases |w|
  {
    if w != [] {
      assert (w + rest)[1..] == w[1..] + rest;
      LeadingDigitsOf(w[1..], rest);
    }
  }

  /** A literal's body does not start with a sign. */
  lemma BodyUnsigned(d: Decimal)
    requires d.Valid()
    ensures d.Body() != [] && d.Body()[0] != '-' && d.Body()[0] != '+'
  {
    if d.whole != [] {
      assert d.Body()[0] == d.whole[0];
    }
  }

  /** The unsigned part of a literal reads back as its magnitude. */
  lemma ParseBody(d: Decimal)
    requires d.Valid()
    ensures ParseUnsigned(d.Body()) == Val(d.Magnitude())
  {
    var tail := if d.point then "." + d.fraction else "";
    var body := d.Body();
    LeadingDigitsOf(d.whole, tail);
    var n := |d.whole|;
    assert body[..n] == d.whole;
    if d.point {
      assert body[n] == '.';
      assert body[n + 1..] == d.fraction;
    } else {
      assert n == |body|;
    }
  }

  /** A literal is spelled with digits, a point and a sign only. */
  lemma LiteralAlphabet(d: Decimal)
    requires d.Valid()
    ensures NoLetterOrSpace(d.Text())
  {
    var t := d.Text();
    forall i | 0 <= i < |t|
      ensures t[i] == '.' || t[i] == '+' || t[i] == '-' || IsDigit(t[i])
    {
      var sign := SignText(d.sign);
      var tail := if d.point then "." + d.fraction else "";
      assert t == sign + d.whole + tail;
      if i < |sign| {
      } else if i < |sign| + |d.whole| {
        assert t[i] == d.whole[i - |sign|];
      } else if i > |sign| + |d.whole| {
        assert t[i] == d.fraction[i - |sign| - |d.whole| - 1];
      }
    }
  }

  /** `Number` reads a sign in front of an unsigned body. */
  lemma ParseSigned(sign: Sign, body: string)
    requires body != [] && body[0] != '-' && body[0] != '+'
    requires NoLetterOrSpace(SignText(sign) + body)
    ensures ParseNumber(SignText(sign) + body)
      == if sign == Minus then Negate(ParseUnsigned(body)) else ParseUnsigned(body)
  {
    var t := SignText(sign) + body;
    match sign {
      case Unsigned =>
        assert t == body;
      case Plus =>
        assert t[0] == '+' && t[1..] == body;
      case Minus =>
        assert t[0] == '-' && t[1..] == body;
    }
  }

  /** Every decimal literal reads back as its value. */
  lemma ParseDecimal(d: Decimal)
    requires d.Valid()
    ensures NoLetterOrSpace(d.Text())
    ensures ParseNumber(d.Text()) == Val(d.Value())
  {
    LiteralAlphabet(d);
    ParseBody(d);
    BodyUnsigned(d);
    ParseSigned(d.sign, d.Body());
  }

  /** The unsigned part of a string that `ParseUnsigned` accepts, as a literal. */
  lemma UnsignedAccepted(s: string, sign: Sign) returns (d: Decimal)
    requires ParseUnsigned(s).Val?
    ensures d.Valid() && d.Text() == SignText(sign) + s
    ensures d.sign == sign && d.Magnitude() == ParseUnsigned(s).value
  {
    var n := LeadingDigits(s);
    if n == |s| {
      d := Decimal(sign, s, false, []);
      assert s[..n] == s;
    } else {
      d := Decimal(sign, s[..n], true, s[n + 1..]);
      assert s == s[..n] + "." + s[n + 1..];
    }
  }

  /** `Number` gives a number exactly for the empty string and for decimal
      literals; every other string of this alphabet gives NaN. */
  lemma ParseAccepts(s: string)
    requires NoLetterOrSpace(s)
    ensures ParseNumber(s).Val? <==> s == [] || IsDecimalLiteral(s)
    ensures ParseNumber(s).NaN? <==> s != [] && !IsDecimalLiteral(s)
  {
    if s != [] && ParseNumber(s).Val? {
      var d: Decimal;
      if s[0] == '-' {
        d := UnsignedAccepted(s[1..], Minus);
        assert s == "-" + s[1..];
      } else if s[0] == '+' {
        d := UnsignedAccepted(s[1..], Plus);
        assert s == "+" + s[1..];
      } else {
        d := UnsignedAccepted(s, Unsigned);
        assert s == "" + s;
      }
      assert d.Text() == s;
    }
    if IsDecimalLiteral(s) {
      var d: Decimal :| d.Valid() && d.Text() == s;
      ParseDecimal(d);
    }
  }

  /** A worked value of `Number` on a stripped amount. */
  lemma ParseTwelveFifty()
    ensures ParseNumber("12.50") == Val(12.5)
  {
    var a := Decimal(Unsigned, "12", true, "50");
    assert a.Text() == "12.50";
    assert DigitsValue("12") == 12 by { assert "12"[..1] == "1"; }
    assert FractionValue("50") == 0.5 by { assert "50"[1..] == "0"; }
    ParseDecimal(a);
  }

  lemma ParseTen()
    ensures ParseNumber("10.00") == Val(10.0)
  {
    var ten := Decimal(Unsigned, "10", true, "00");
    assert ten.Text() == "10.00";
    assert DigitsValue("10") == 10 by { assert "10"[..1] == "1"; }
    assert FractionValue("00") == 0.0 by { assert "00"[1..] == "0"; }
    ParseDecimal(ten);
  }

  lemma ParseMinusFive()
    ensures ParseNumber("-5") == Val(-5.0)
  {
    var d := Decimal(Minus, "5", false, "");
    assert d.Text() == "-5";
    ParseDecimal(d);
  }

  /** No digit is needed before the point ... */
  lemma ParseNoWhole()
    ensures ParseNumber("-.5") == Val(-0.5)
  {
    assert "-.5"[1..] == ".5";
    assert LeadingDigits(".5") == 0;
    assert ".5"[1..] == "5";
    assert FractionValue("5") == 0.5 by {
      assert "5"[1..] == "";
    }
    assert ParseUnsigned(".5") == Val(0.5);
  }

  /** ... nor after it. */
  lemma ParseNoFraction()
    ensures ParseNumber("5.") == Val(5.0)
  {
    var c := Decimal(Unsigned, "5", true, "");
    assert c.Text() == "5.";
    ParseDecimal(c);
  }

  /** A sign alone, a point alone and a second point all give NaN. */
  lemma ParseNaNExamples()
    ensures ParseNumber(".") == NaN
    ensures ParseNumber("-") == NaN
    ensures ParseNumber("+") == NaN
    ensures ParseNumber("1.2.3") == NaN
  {
    assert LeadingDigits(".") == 0;
    assert LeadingDigits("1.2.3") == 1;
    assert !AllDigits("2.3") by { assert !IsDigit("2.3"[1]); }
  }
}
