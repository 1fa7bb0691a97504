/**
 * The decimal literals Python's `float()` accepts once the text has been
 * stripped: an optional sign, a mantissa of digit parts around an optional
 * point, and an optional exponent. A digit part is a run of ASCII digits in
 * which single underscores may stand between two digits. Values are exact
 * reals; IEEE-754 rounding is not modelled.
 */
module FloatLiteral {
  import opened Wrappers

  datatype Sign = Unsigned | Plus | Minus

  /** `e` or `E` (recorded by `upper`), an optional sign, and a digit part. */
  datatype Exponent = Exponent(upper: bool, sign: Sign, digits: string)

  /**
   * A literal split into its parts: `whole` before the point, `fraction`
   * after it; either may be empty, but not both.
   */
  datatype Literal = Literal(sign: Sign, whole: string, point: bool, fraction: string, exponent: Option<Exponent>)

  predicate IsDigit(c: char) {
    '0' as int <= c as int <= '9' as int
  }

  predicate IsPoint(c: char) {
    c == '.'
  }

  predicate IsExponentMarker(c: char) {
    c == 'e' || c == 'E'
  }

  /** The characters a literal can be written with. */
  predicate IsLiteralChar(c: char) {
    IsDigit(c) || c == '_' || IsPoint(c) || IsExponentMarker(c) || c == '+' || c == '-'
  }

  /** `digit (["_"] digit)*`: digits, with single underscores only between two digits. */
  predicate IsDigitPart(s: string) {
    && |s| > 0 && IsDigit(s[0])
    && (|s| == 1 || IsDigitPart(s[1..]) || (s[1] == '_' && IsDigitPart(s[2..])))
  }

  /** A digit part is made of digits and underscores. */
  lemma {:induction false} DigitPartChars(s: string)
    requires IsDigitPart(s)
    ensures forall i :: 0 <= i < |s| ==> IsDigit(s[i]) || s[i] == '_'
  {
    if |s| > 1 {
      if IsDigitPart(s[1..]) {
        DigitPartChars(s[1..]);
        assert forall i :: 1 <= i < |s| ==> s[i] == s[1..][i - 1];
      } else {
        DigitPartChars(s[2..]);
        assert forall i :: 2 <= i < |s| ==> s[i] == s[2..][i - 2];
      }
    }
  }

  /** The grammar's constraints on the parts of a literal. */
  predicate WellFormed(lit: Literal) {
    && (lit.whole == [] || IsDigitPart(lit.whole))
    && (lit.fraction == [] || IsDigitPart(lit.fraction))
    && (lit.point || lit.fraction == [])
    && (lit.whole != [] || lit.fraction != [])
    && (lit.exponent.Some? ==> IsDigitPart(lit.exponent.value.digits))
  }

  function SignText(sign: Sign): string {
    match sign
    case Unsigned => ""
    case Plus => "+"
    case Minus => "-"
  }

  function MantissaText(lit: Literal): string {
    lit.whole + ((if lit.point then "." else "") + lit.fraction)
  }

  function ExponentText(exponent: Option<Exponent>): string {
    match exponent
    case None => ""
    case Some(x) => [if x.upper then 'E' else 'e'] + (SignText(x.sign) + x.digits)
  }

  /** The text of a literal: the grammar, read as a generator. */
  function Render(lit: Literal): string {
    SignText(lit.sign) + (MantissaText(lit) + ExponentText(lit.exponent))
  }

  /** A leading `+` or `-`, if there is one, and the rest. */
  function SplitSign(s: string): (r: (Sign, string))
    ensures SignText(r.0) + r.1 == s
    ensures r.0 == Unsigned ==> s == [] || (s[0] != '+' && s[0] != '-')
  {
    if s != [] && s[0] == '+' then (Plus, s[1..])
    else if s != [] && s[0] == '-' then (Minus, s[1..])
    else (Unsigned, s)
  }

  /** The index of the first character of `s` in `stops`, or `|s|` if there is none. */
  function FirstIndex(s: string, stops: set<char>): (i: nat)
    ensures i <= |s|
    ensures forall k :: 0 <= k < i ==> s[k] !in stops
    ensures i < |s| ==> s[i] in stops
  {
    if s == [] || s[0] in stops then 0 else 1 + FirstIndex(s[1..], stops)
  }

  /** Splits a mantissa at its first point into the whole part, whether there is a point, and the fraction. */
  function SplitMantissa(m: string): (r: (string, bool, string))
    ensures r.0 + ((if r.1 then "." else "") + r.2) == m
    ensures !r.1 ==> r.2 == []
  {
    var p := FirstIndex(m, {'.'});
    if p < |m| then
      assert m == m[..p] + ("." + m[p + 1..]);
      (m[..p], true, m[p + 1..])
    else (m, false, [])
  }

  /** Reads the exponent whose marker is `marker` and whose signed digits are `tail`. */
  function ReadExponent(marker: char, tail: string): (x: Exponent)
    requires IsExponentMarker(marker)
    ensures ExponentText(Some(x)) == [marker] + tail
  {
    var rest := SplitSign(tail);
    assert [if marker == 'E' then 'E' else 'e'] == [marker];
    Exponent(marker == 'E', rest.0, rest.1)
  }

  /** Cutting a string around one of its characters. */
  lemma CutAt(s: string, e: nat)
    requires e < |s|
    ensures s == s[..e] + ([s[e]] + s[e + 1..])
  {
  }

  /** Splits the text after the sign at its first `e`/`E` into the mantissa and the exponent. */
  function SplitExponent(body: string): (r: (string, Option<Exponent>))
    ensures r.0 + ExponentText(r.1) == body
  {
    var e := FirstIndex(body, {'e', 'E'});
    if e == |body| then
      (body, None)
    else
      CutAt(body, e);
      (body[..e], Some(ReadExponent(body[e], body[e + 1..])))
  }

  /**
   * Reads a stripped token as a literal: the exponent starts at the first
   * `e`/`E`, the fraction at the first point; the parts must then satisfy
   * the grammar. Whatever it accepts renders back to the token.
   */
  function ParseLiteral(t: string): (r: Option<Literal>)
    ensures r.Some? ==> WellFormed(r.value) && Render(r.value) == t
  {
    var signed := SplitSign(t);
    var body := SplitExponent(signed.1);
    var mantissa := SplitMantissa(body.0);
    var lit := Literal(signed.0, mantissa.0, mantissa.1, mantissa.2, body.1);
    if WellFormed(lit) then Some(lit) else None
  }

  /** Python's `float(t)` on a stripped token, with the result as an exact real. */
  function ParseFloat(t: string): Option<real> {
    match ParseLiteral(t)
    case None => None
    case Some(lit) => Some(Value(lit))
  }

  function DigitValue(c: char): nat
    requires IsDigit(c)
  {
    c as int - '0' as int
  }

  /** The digits of `s` read in base 10, underscores skipped. */
  function DigitsValue(s: string): nat {
    if s == [] then 0
    else if IsDigit(s[|s| - 1]) then 10 * DigitsValue(s[..|s| - 1]) + DigitValue(s[|s| - 1])
    else DigitsValue(s[..|s| - 1])
  }

  /** How many digits `s` has, underscores not counted. */
  function DigitCount(s: string): nat {
    if s == [] then 0 else (if IsDigit(s[0]) then 1 else 0) + DigitCount(s[1..])
  }

  function Pow10(n: nat): (r: real)
    ensures r >= 1.0
  {
    if n == 0 then 1.0 else 10.0 * Pow10(n - 1)
  }

  function ExponentValue(exponent: Option<Exponent>): int {
    match exponent
    case None => 0
    case Some(x) => var d := DigitsValue(x.digits) as int; if x.sign == Minus then -d else d
  }

  /**
   * The exact number a literal denotes: `±(whole.fraction) × 10^exponent`.
   * Only a leading `-` makes it negative.
   */
  function Value(lit: Literal): (r: real)
    ensures lit.sign == Minus ==> r <= 0.0
    ensures lit.sign != Minus ==> r >= 0.0
  {
    var magnitude := DigitsValue(lit.whole) as real + DigitsValue(lit.fraction) as real / Pow10(DigitCount(lit.fraction));
    var k := ExponentValue(lit.exponent);
    var scaled := if k >= 0 then magnitude * Pow10(k) else magnitude / Pow10(-k);
    assert scaled >= 0.0 by {
      if k >= 0 {
        NonNegativeProduct(magnitude, Pow10(k));
      }
    }
    if lit.sign == Minus then -scaled else scaled
  }

  /** The product of two non-negative numbers is non-negative. */
  lemma NonNegativeProduct(p: real, q: real)
    requires p >= 0.0 && q >= 0.0
    ensures p * q >= 0.0
  {
  }

  /** A plain run of digits, such as "50000", denotes the integer those digits spell. */
  lemma PlainValue(w: string)
    requires IsDigitPart(w)
    ensures Value(Literal(Unsigned, w, false, "", None)) == DigitsValue(w) as real
  {
  }

  /** The literal "50000", the first value of the list "[50000, 60000, 70000]", denotes 50000. */
  lemma FiftyThousand()
    ensures Value(Literal(Unsigned, "50000", false, "", None)) == 50000.0
  {
    var w := "50000";
    assert IsDigitPart(w) by {
      assert IsDigitPart(w[4..]);
      assert IsDigitPart(w[3..]);
      assert IsDigitPart(w[2..]);
      assert IsDigitPart(w[1..]);
    }
    PlainValue(w);
    assert DigitsValue(w) == 50000 by {
      assert w[..1][..0] == [];
      assert DigitsValue(w[..1]) == 5;
      assert w[..2][..1] == w[..1];
      assert DigitsValue(w[..2]) == 50;
      assert w[..3][..2] == w[..2];
      assert DigitsValue(w[..3]) == 500;
      assert w[..4][..3] == w[..3];
      assert DigitsValue(w[..4]) == 5000;
      assert w[..4] == w[..|w| - 1];
    }
  }

  /** Every character of `s` is one a literal can be written with. */
  predicate AllLiteralChars(s: string) {
    forall i :: 0 <= i < |s| ==> IsLiteralChar(s[i])
  }

  lemma LiteralCharsConcat(a: string, b: string)
    requires AllLiteralChars(a) && AllLiteralChars(b)
    ensures AllLiteralChars(a + b)
  {
    forall i | 0 <= i < |a + b| ensures IsLiteralChar((a + b)[i]) {
      if i >= |a| {
        assert (a + b)[i] == b[i - |a|];
      }
    }
  }

  /** The mantissa of a well-formed literal starts with a digit or a point, and its whole part has no point. */
  lemma MantissaShape(lit: Literal)
    requires WellFormed(lit)
    ensures MantissaText(lit) != [] && (IsDigit(MantissaText(lit)[0]) || IsPoint(MantissaText(lit)[0]))
    ensures forall k :: 0 <= k < |lit.whole| ==> !IsPoint(lit.whole[k])
  {
    var m := MantissaText(lit);
    if lit.whole != [] {
      DigitPartChars(lit.whole);
      assert m[0] == lit.whole[0];
    } else {
      assert m[0] == '.';
    }
  }

  /** No character of a well-formed mantissa marks an exponent. */
  lemma MantissaHasNoMarker(lit: Literal)
    requires WellFormed(lit)
    ensures forall k :: 0 <= k < |MantissaText(lit)| ==> !IsExponentMarker(MantissaText(lit)[k])
    ensures AllLiteralChars(MantissaText(lit))
  {
    var m := MantissaText(lit);
    var dot := if lit.point then "." else "";
    if lit.whole != [] {
      DigitPartChars(lit.whole);
    }
    if lit.fraction != [] {
      DigitPartChars(lit.fraction);
    }
    forall k | 0 <= k < |m| ensures (IsDigit(m[k]) || m[k] == '_' || IsPoint(m[k])) {
      if k < |lit.whole| {
        assert m[k] == lit.whole[k];
      } else if k < |lit.whole| + |dot| {
        assert m[k] == '.';
      } else {
        assert m[k] == lit.fraction[k - |lit.whole| - |dot|];
      }
    }
  }

  lemma SplitSignRender(sign: Sign, body: string)
    requires body != [] && body[0] != '+' && body[0] != '-'
    ensures SplitSign(SignText(sign) + body) == (sign, body)
  {
    var t := SignText(sign) + body;
    if sign == Unsigned {
      assert t == body;
    } else {
      assert t[1..] == body;
    }
  }

  /** The first stop in `m + x` is the head of `x` when `m` holds no stop. */
  lemma {:induction false} FirstIndexPast(m: string, x: string, stops: set<char>)
    requires forall k :: 0 <= k < |m| ==> m[k] !in stops
    requires x != [] ==> x[0] in stops
    ensures FirstIndex(m + x, stops) == |m|
  {
    if m == [] {
      assert m + x == x;
    } else {
      assert (m + x)[0] == m[0];
      assert (m + x)[1..] == m[1..] + x;
      FirstIndexPast(m[1..], x, stops);
    }
  }

  lemma SplitExponentRender(lit: Literal)
    requires WellFormed(lit)
    ensures SplitExponent(MantissaText(lit) + ExponentText(lit.exponent)) == (MantissaText(lit), lit.exponent)
  {
    MantissaHasNoMarker(lit);
    SplitExponentAfter(MantissaText(lit), lit.exponent);
  }

  /** A text free of exponent markers followed by a rendered exponent splits back into the two. */
  lemma SplitExponentAfter(m: string, exponent: Option<Exponent>)
    requires forall k :: 0 <= k < |m| ==> !IsExponentMarker(m[k])
    requires exponent.Some? ==> exponent.value.digits != [] && IsDigit(exponent.value.digits[0])
    ensures SplitExponent(m + ExponentText(exponent)) == (m, exponent)
  {
    var x := ExponentText(exponent);
    FirstIndexPast(m, x, {'e', 'E'});
    if exponent.Some? {
      var ex := exponent.value;
      var body := m + x;
      var tail := SignText(ex.sign) + ex.digits;
      assert body[..|m|] == m;
      assert body[|m| + 1..] == tail;
      SplitSignRender(ex.sign, ex.digits);
      assert ReadExponent(body[|m|], tail) == ex;
    } else {
      assert m + x == m;
    }
  }

  lemma SplitMantissaRender(lit: Literal)
    requires WellFormed(lit)
    ensures SplitMantissa(MantissaText(lit)) == (lit.whole, lit.point, lit.fraction)
  {
    var m := MantissaText(lit);
    MantissaShape(lit);
    var p := FirstIndex(m, {'.'});
    assert forall k :: 0 <= k < |lit.whole| ==> m[k] == lit.whole[k];
    assert p >= |lit.whole|;
    if lit.point {
      assert m[|lit.whole|] == '.';
      assert p == |lit.whole|;
      assert m[..p] == lit.whole;
      assert m[p + 1..] == lit.fraction;
    } else {
      assert m == lit.whole;
    }
  }

  /**
   * Every well-formed literal is read back as itself: together with the
   * contract of ParseLiteral, a token parses exactly when it is the
   * rendering of a well-formed literal, and then to that literal.
   */
  lemma RoundTrip(lit: Literal)
    requires WellFormed(lit)
    ensures ParseLiteral(Render(lit)) == Some(lit)
  {
    var m := MantissaText(lit);
    var body := m + ExponentText(lit.exponent);
    assert Render(lit) == SignText(lit.sign) + body;
    MantissaShape(lit);
    assert body[0] == m[0];
    SplitSignRender(lit.sign, body);
    SplitExponentRender(lit);
    SplitMantissaRender(lit);
  }

  /** Every number `float()` returns is the value of a well-formed literal written exactly as the token. */
  lemma ParseFloatSound(t: string)
    requires ParseFloat(t).Some?
    ensures exists lit :: WellFormed(lit) && Render(lit) == t && ParseFloat(t).value == Value(lit)
  {
    var lit := ParseLiteral(t).value;
    assert WellFormed(lit) && Render(lit) == t;
  }

  /** Python's `float` of a rendered literal is that literal's value. */
  lemma ParseFloatRender(lit: Literal)
    requires WellFormed(lit)
    ensures ParseFloat(Render(lit)) == Some(Value(lit))
  {
    RoundTrip(lit);
  }

  /** A well-formed literal is written with literal characters only. */
  lemma RenderChars(lit: Literal)
    requires WellFormed(lit)
    ensures AllLiteralChars(Render(lit))
  {
    MantissaHasNoMarker(lit);
    var x := ExponentText(lit.exponent);
    if lit.exponent.Some? {
      var ex := lit.exponent.value;
      DigitPartChars(ex.digits);
      assert AllLiteralChars(ex.digits);
      LiteralCharsConcat(SignText(ex.sign), ex.digits);
      LiteralCharsConcat([x[0]], SignText(ex.sign) + ex.digits);
    }
    LiteralCharsConcat(MantissaText(lit), x);
    LiteralCharsConcat(SignText(lit.sign), MantissaText(lit) + x);
  }

  /** A token that `float` accepts uses only literal characters: a bracket, comma or space makes it fail. */
  lemma AcceptedChars(t: string)
    requires ParseFloat(t).Some?
    ensures AllLiteralChars(t)
  {
    RenderChars(ParseLiteral(t).value);
  }
}
