/** The two try-parse predicates of the bridge, `isint` and `isfloat`, with the
    values Python's `int()` and `float()` give, and the decimal texts the
    argument encoder writes for numbers. */
module Numbers {
  import opened Text

  /** The number `mantissa * 10^exponent`: the exact decimal a float text denotes.
      The rounding to an IEEE-754 double is not modelled. */
  datatype Decimal = Decimal(mantissa: int, exponent: int)

  /** The characters Python's `int()` and `float()` ignore around a number:
      the ASCII blanks, and the characters above U+007F that `str.isspace()`
      accepts, which those parsers turn into a blank before stripping. */
  const Whitespace: set<char> := {
    ' ', '\t', '\n', '\r', '\U{000B}', '\U{000C}',
    '\U{0085}', '\U{00A0}', '\U{1680}',
    '\U{2000}', '\U{2001}', '\U{2002}', '\U{2003}', '\U{2004}', '\U{2005}',
    '\U{2006}', '\U{2007}', '\U{2008}', '\U{2009}', '\U{200A}',
    '\U{2028}', '\U{2029}', '\U{202F}', '\U{205F}', '\U{3000}'}

  predicate IsDigit(c: char) { '0' <= c <= '9' }

  predicate AllDigits(s: string) { forall i :: 0 <= i < |s| ==> IsDigit(s[i]) }

  function DigitValue(c: char): nat
    requires IsDigit(c)
  {
    (c as int) - ('0' as int)
  }

  /** The value of a run of decimal digits, most significant first. */
  function DigitsValue(s: string): nat
    requires AllDigits(s)
    decreases |s|
  {
    if s == [] then 0 else 10 * DigitsValue(s[..|s| - 1]) + DigitValue(s[|s| - 1])
  }

  /** The text after an optional leading sign. */
  function Unsigned(t: string): string
  {
    if |t| > 0 && (t[0] == '+' || t[0] == '-') then t[1..] else t
  }

  /** `n` with the sign the text starts with. */
  function WithSign(t: string, n: nat): int
  {
    if |t| > 0 && t[0] == '-' then -(n as int) else n
  }

  /** An optional sign followed by one or more digits. */
  predicate IsSignedDigits(t: string)
  {
    |Unsigned(t)| > 0 && AllDigits(Unsigned(t))
  }

  function SignedValue(t: string): int
    requires IsSignedDigits(t)
  {
    WithSign(t, DigitsValue(Unsigned(t)))
  }

  /** `isint(s)`: Python's `int(s)` succeeds. */
  predicate IsInt(s: string)
  {
    IsSignedDigits(Strip(s, Whitespace))
  }

  /** `int(s)` for a text `isint` accepts. */
  function ParseInt(s: string): int
    requires IsInt(s)
  {
    SignedValue(Strip(s, Whitespace))
  }

  /** The digits before the decimal point of a mantissa. */
  function IntegerPart(m: string): string
  {
    m[..IndexIn(m, {'.'})]
  }

  /** The digits after the decimal point of a mantissa ("" when there is no point). */
  function FractionPart(m: string): string
  {
    var d := IndexIn(m, {'.'});
    if d < |m| then m[d + 1..] else []
  }

  /** `digits`, `digits.`, `digits.digits` or `.digits`. */
  predicate IsMantissa(m: string)
  {
    AllDigits(IntegerPart(m)) && AllDigits(FractionPart(m))
    && |IntegerPart(m)| + |FractionPart(m)| > 0
  }

  /** The index of the exponent marker in an unsigned float text, or its length. */
  function ExponentAt(u: string): nat
  {
    IndexIn(u, {'e', 'E'})
  }

  /** A mantissa and an optional `e`/`E` exponent with its own sign. */
  predicate IsUnsignedFloat(u: string)
  {
    var k := ExponentAt(u);
    IsMantissa(u[..k]) && (k == |u| || IsSignedDigits(u[k + 1..]))
  }

  /** An optional sign followed by an unsigned float. */
  predicate IsFloatText(t: string)
  {
    IsUnsignedFloat(Unsigned(t))
  }

  /** `isfloat(s)`: Python's `float(s)` succeeds. */
  predicate IsFloat(s: string)
  {
    IsFloatText(Strip(s, Whitespace))
  }

  /** The value of all mantissa digits, before and after the point. */
  function Magnitude(u: string): nat
    requires IsUnsignedFloat(u)
  {
    var m := u[..ExponentAt(u)];
    DigitsValue(IntegerPart(m) + FractionPart(m))
  }

  /** The written exponent, less one for each digit after the point. */
  function Scale(u: string): int
    requires IsUnsignedFloat(u)
  {
    var k := ExponentAt(u);
    (if k == |u| then 0 else SignedValue(u[k + 1..])) - |FractionPart(u[..k])|
  }

  /** The decimal a float text (already stripped) denotes. */
  function FloatValue(t: string): Decimal
    requires IsFloatText(t)
  {
    Decimal(WithSign(t, Magnitude(Unsigned(t))), Scale(Unsigned(t)))
  }

  /** `float(s)` for a text `isfloat` accepts, as the exact decimal it denotes. */
  function ParseFloat(s: string): Decimal
    requires IsFloat(s)
  {
    FloatValue(Strip(s, Whitespace))
  }

  /** Every text `int()` accepts is accepted by `float()` too, with the same value:
      this is why the decoder must test for ints before floats. */
  lemma IntIsFloat(s: string)
    requires IsInt(s)
    ensures IsFloat(s)
    ensures ParseFloat(s) == Decimal(ParseInt(s), 0)
  {
    var t := Strip(s, Whitespace);
    var u := Unsigned(t);
    NoMarkerInDigits(u, {'e', 'E'});
    assert u[..ExponentAt(u)] == u;
    NoMarkerInDigits(u, {'.'});
    assert IntegerPart(u) == u && FractionPart(u) == [];
    assert IntegerPart(u) + FractionPart(u) == u;
  }

  /** A run of digits contains no point and no exponent marker. */
  lemma {:induction false} NoMarkerInDigits(u: string, chars: set<char>)
    requires AllDigits(u)
    requires forall c :: c in chars ==> !IsDigit(c)
    ensures IndexIn(u, chars) == |u|
    decreases |u|
  {
    if u != [] {
      assert IsDigit(u[0]);
      assert AllDigits(u[1..]) by {
        assert forall i :: 0 <= i < |u| - 1 ==> u[1..][i] == u[i + 1];
      }
      NoMarkerInDigits(u[1..], chars);
    }
  }

  /** A text that starts with anything but a digit, a sign, a point or an
      exponent marker is neither an int nor a float text. */
  lemma NotNumberText(t: string)
    requires t != [] && !IsDigit(t[0]) && t[0] !in {'+', '-', '.', 'e', 'E'}
    ensures !IsSignedDigits(t) && !IsFloatText(t)
  {
    assert Unsigned(t) == t;
    var k := ExponentAt(t);
    IndexInShape(t, {'e', 'E'});
    assert k >= 1;
    var m := t[..k];
    IndexInShape(m, {'.'});
    assert IndexIn(m, {'.'}) >= 1;
    assert IntegerPart(m)[0] == t[0];
  }

  function DigitChar(d: nat): (c: char)
    requires d < 10
    ensures IsDigit(c) && DigitValue(c) == d
  {
    (('0' as int) + d) as char
  }

  /** `str(n)` for a natural number: its decimal digits, without leading zeros. */
  function NatText(n: nat): (s: string)
    ensures |s| >= 1 && AllDigits(s)
    ensures DigitsValue(s) == n
    decreases n
  {
    if n < 10 then [DigitChar(n)]
    else
      var p := NatText(n / 10);
      var s := p + [DigitChar(n % 10)];
      assert s[..|s| - 1] == p;
      s
  }

  /** `str(i)` for an integer. */
  function IntText(i: int): string
  {
    if i < 0 then "-" + NatText(-i) else NatText(i)
  }

  /** The text the encoder writes for a float: mantissa, `e`, exponent. Python's
      `float()` reads it back as the same decimal. */
  function FloatText(d: Decimal): string
  {
    IntText(d.mantissa) + "e" + IntText(d.exponent)
  }

  /** Neither end of a number text is whitespace. */
  lemma IntTextEnds(i: int)
    ensures |IntText(i)| >= 1
    ensures IntText(i)[0] !in Whitespace && IntText(i)[|IntText(i)| - 1] !in Whitespace
  {
    var n := if i < 0 then -i else i;
    assert IsDigit(NatText(n)[0]) && IsDigit(NatText(n)[|NatText(n)| - 1]);
  }

  /** `int(str(i)) == i`, also with whitespace in front (as after ", " in a list). */
  lemma IntTextRoundTrip(lead: string, i: int)
    requires forall k :: 0 <= k < |lead| ==> lead[k] in Whitespace
    ensures IsInt(lead + IntText(i)) && ParseInt(lead + IntText(i)) == i
  {
    IntTextEnds(i);
    StripAfterLead(lead, IntText(i), Whitespace);
    if i < 0 {
      assert Unsigned(IntText(i)) == NatText(-i);
    } else {
      assert IsDigit(NatText(i)[0]);
      assert Unsigned(IntText(i)) == NatText(i);
    }
  }

  /** A run of digits is a mantissa without a fraction. */
  lemma DigitsMantissa(digits: string)
    requires |digits| >= 1 && AllDigits(digits)
    ensures IsMantissa(digits)
    ensures IntegerPart(digits) + FractionPart(digits) == digits && FractionPart(digits) == []
  {
    NoMarkerInDigits(digits, {'.'});
    assert digits[..|digits|] == digits;
  }

  /** In `digits e exponent` the marker stands right after the digits. */
  lemma ExponentAfterDigits(digits: string, exp: string)
    requires AllDigits(digits)
    ensures var u := digits + "e" + exp;
      ExponentAt(u) == |digits| && u[..|digits|] == digits && u[|digits| + 1..] == exp
  {
    var u := digits + "e" + exp;
    IndexInAfter(digits, 'e', exp, {'e', 'E'});
    assert u == digits + ['e'] + exp;
    assert u[..|digits|] == digits;
    assert u[|digits| + 1..] == exp;
  }

  /** The sign, digits and exponent of a float text. */
  lemma FloatTextParts(d: Decimal)
    ensures var n := if d.mantissa < 0 then -d.mantissa else d.mantissa;
      Unsigned(FloatText(d)) == NatText(n) + "e" + IntText(d.exponent)
      && WithSign(FloatText(d), n) == d.mantissa
  {
    var rest := "e" + IntText(d.exponent);
    assert FloatText(d) == IntText(d.mantissa) + rest;
    SignThenRest(d.mantissa, rest);
    var n := if d.mantissa < 0 then -d.mantissa else d.mantissa;
    assert NatText(n) + rest == NatText(n) + "e" + IntText(d.exponent);
  }

  /** `str(i)` followed by more text: the sign belongs to `i`, and what is
      left after it is the digits of `|i|` and that text. */
  lemma SignThenRest(i: int, rest: string)
    ensures var n := if i < 0 then -i else i;
      Unsigned(IntText(i) + rest) == NatText(n) + rest && WithSign(IntText(i) + rest, n) == i
  {
    var n := if i < 0 then -i else i;
    var digits := NatText(n);
    if i < 0 {
      assert IntText(i) + rest == "-" + digits + rest;
      MinusDigits(digits, rest, n);
    } else {
      assert IntText(i) + rest == digits + rest;
      PlainDigits(digits, rest, n);
    }
  }

  /** A text that starts with a minus sign and digits: the sign is negative. */
  lemma MinusDigits(digits: string, rest: string, n: nat)
    requires |digits| >= 1
    ensures Unsigned("-" + digits + rest) == digits + rest && WithSign("-" + digits + rest, n) == -(n as int)
  {
    var t := "-" + digits + rest;
    assert t[0] == '-' && t[1..] == digits + rest;
  }

  /** A text that starts with a digit has no sign. */
  lemma PlainDigits(digits: string, rest: string, n: nat)
    requires |digits| >= 1 && AllDigits(digits)
    ensures Unsigned(digits + rest) == digits + rest && WithSign(digits + rest, n) == n
  {
    assert IsDigit(digits[0]) && (digits + rest)[0] == digits[0];
  }

  /** `str(i)` is an optional minus sign and digits that denote `i`. */
  lemma IntTextSigned(i: int)
    ensures IsSignedDigits(IntText(i)) && SignedValue(IntText(i)) == i
  {
    if i < 0 {
      assert Unsigned(IntText(i)) == NatText(-i);
    } else {
      assert IsDigit(NatText(i)[0]);
      assert Unsigned(IntText(i)) == NatText(i);
    }
  }

  /** The unsigned part of a float text: digits, `e`, exponent. */
  lemma UnsignedFloatText(digits: string, e: int)
    requires |digits| >= 1 && AllDigits(digits)
    ensures var u := digits + "e" + IntText(e);
      IsUnsignedFloat(u) && Magnitude(u) == DigitsValue(digits) && Scale(u) == e && !AllDigits(u)
  {
    var u := digits + "e" + IntText(e);
    ExponentAfterDigits(digits, IntText(e));
    DigitsMantissa(digits);
    IntTextSigned(e);
    assert !IsDigit(u[|digits|]);
  }

  /** A float text is a float and not an int, and denotes the decimal it was written from. */
  lemma FloatTextValue(d: Decimal)
    ensures !IsSignedDigits(FloatText(d))
    ensures IsFloatText(FloatText(d)) && FloatValue(FloatText(d)) == d
  {
    var n := if d.mantissa < 0 then -d.mantissa else d.mantissa;
    FloatTextParts(d);
    UnsignedFloatText(NatText(n), d.exponent);
  }

  /** A float text, also after whitespace, is not an int text, and `float()`
      reads back the decimal it was written from. */
  lemma FloatTextRoundTrip(lead: string, d: Decimal)
    requires forall k :: 0 <= k < |lead| ==> lead[k] in Whitespace
    ensures !IsInt(lead + FloatText(d))
    ensures IsFloat(lead + FloatText(d)) && ParseFloat(lead + FloatText(d)) == d
  {
    var t := FloatText(d);
    IntTextEnds(d.mantissa);
    IntTextEnds(d.exponent);
    assert t[0] == IntText(d.mantissa)[0];
    assert t[|t| - 1] == IntText(d.exponent)[|IntText(d.exponent)| - 1];
    StripAfterLead(lead, t, Whitespace);
    FloatTextValue(d);
  }
}
