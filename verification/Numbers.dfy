/** JSON number literals: the grammar, the safe-integer profile, and the canonical
    text (RFC 8785, section 3.2.2.3), on both rails. */
module Numbers {
  import opened Core

  datatype Exponent = Exponent(mark: byte, sign: Option<byte>, digits: bytes)

  /** A number token split at the joints of its grammar. */
  datatype Literal = Literal(neg: bool, whole: bytes, frac: Option<bytes>, exp: Option<Exponent>)

  const MINUS: byte := 0x2D
  const PLUS: byte := 0x2B
  const DOT: byte := 0x2E
  const ZERO: byte := 0x30

  predicate ExponentMark(b: byte) {
    b == 0x65 || b == 0x45
  }

  predicate LiteralOk(l: Literal) {
    && l.whole != [] && AllDigits(l.whole) && (l.whole[0] == ZERO ==> |l.whole| == 1)
    && (l.frac.Some? ==> l.frac.value != [] && AllDigits(l.frac.value))
    && (l.exp.Some? ==> ExponentMark(l.exp.value.mark) && l.exp.value.digits != [] && AllDigits(l.exp.value.digits)
                        && (l.exp.value.sign.Some? ==> l.exp.value.sign.value == MINUS || l.exp.value.sign.value == PLUS))
  }

  type Number = l: Literal | LiteralOk(l) witness Literal(false, [0x30], None, None)

  function FracText(f: Option<bytes>): bytes {
    if f.Some? then [DOT] + f.value else []
  }

  function ExpText(e: Option<Exponent>): bytes {
    if e.Some? then [e.value.mark] + (if e.value.sign.Some? then [e.value.sign.value] else []) + e.value.digits else []
  }

  function LiteralText(l: Literal): bytes {
    (if l.neg then [MINUS] else []) + l.whole + FracText(l.frac) + ExpText(l.exp)
  }

  // ----- lexing -----

  /** The integer part: a single zero, or digits up to the first other byte. */
  function LexWhole(t: bytes): (r: Option<Lexed<bytes>>)
    ensures r.Some? ==> r.value.token != [] && AllDigits(r.value.token) && r.value.token + r.value.rest == t
                        && (r.value.token[0] == ZERO ==> |r.value.token| == 1)
  {
    var n := if t != [] && t[0] == ZERO then 1 else DigitRun(t);
    if n == 0 then None else Some(Lexed(t[..n], t[n..]))
  }

  function LexFrac(t: bytes): (r: Option<Lexed<Option<bytes>>>)
    ensures r.Some? ==> FracText(r.value.token) + r.value.rest == t
                        && (r.value.token.Some? ==> r.value.token.value != [] && AllDigits(r.value.token.value))
  {
    if t == [] || t[0] != DOT then Some(Lexed(None, t))
    else
      var n := DigitRun(t[1..]);
      if n == 0 then None else Some(Lexed(Some(t[1..][..n]), t[1..][n..]))
  }

  function LexExp(t: bytes): (r: Option<Lexed<Option<Exponent>>>)
    ensures r.Some? ==> ExpText(r.value.token) + r.value.rest == t
    ensures r.Some? ==> LiteralOk(Literal(false, [ZERO], None, r.value.token))
  {
    if t == [] || !ExponentMark(t[0]) then Some(Lexed(None, t))
    else
      var signed := |t| > 1 && (t[1] == MINUS || t[1] == PLUS);
      var ds := if signed then t[2..] else t[1..];
      var n := DigitRun(ds);
      if n == 0 then None
      else
        var e := Exponent(t[0], if signed then Some(t[1]) else None, ds[..n]);
        assert ExpText(Some(e)) + ds[n..] == t;
        Some(Lexed(Some(e), ds[n..]))
  }

  /** The number token at the front, greedy as the JSON scanner is. */
  function LexNumber(s: bytes): (r: Option<Lexed<Number>>)
    ensures r.Some? ==> LiteralText(r.value.token) + r.value.rest == s && |r.value.rest| < |s|
  {
    var neg := s != [] && s[0] == MINUS;
    var whole := LexWhole(if neg then s[1..] else s);
    if whole.None? then None
    else
      var frac := LexFrac(whole.value.rest);
      if frac.None? then None
      else
        var exp := LexExp(frac.value.rest);
        if exp.None? then None
        else
          var l := Literal(neg, whole.value.token, frac.value.token, exp.value.token);
          TextOfParts(l, exp.value.rest);
          Some(Lexed(l, exp.value.rest))
  }

  lemma TextOfParts(l: Literal, rest: bytes)
    ensures LiteralText(l) + rest ==
            (if l.neg then [MINUS] else []) + (l.whole + (FracText(l.frac) + (ExpText(l.exp) + rest)))
  {
  }

  /** A byte that cannot continue a number token. */
  predicate EndsNumber(rest: bytes) {
    rest == [] || (!IsDigit(rest[0]) && rest[0] != DOT && !ExponentMark(rest[0]))
  }

  /** The lexer inverts LiteralText. */
  lemma LexNumberText(l: Literal, rest: bytes)
    requires LiteralOk(l) && EndsNumber(rest)
    ensures LexNumber(LiteralText(l) + rest) == Some(Lexed(l, rest))
  {
    hide LexWhole, LexFrac, LexExp, FracText, ExpText;
    var afterFrac := ExpText(l.exp) + rest;
    var afterWhole := FracText(l.frac) + afterFrac;
    var s := LiteralText(l) + rest;
    TextOfParts(l, rest);
    PartStarts(l, rest);
    WholeText(l.whole, afterWhole);
    FracTextLexed(l.frac, afterFrac);
    ExpTextLexed(l.exp, rest);
    if l.neg {
      assert s[0] == MINUS && s[1..] == l.whole + afterWhole;
    } else {
      assert s == l.whole + afterWhole && s[0] == l.whole[0];
      assert l.whole[0] in l.whole;
    }
  }

  /** What may follow each part of a token. */
  lemma PartStarts(l: Literal, rest: bytes)
    requires LiteralOk(l) && EndsNumber(rest)
    ensures var t := ExpText(l.exp) + rest; t == [] || (!IsDigit(t[0]) && t[0] != DOT)
    ensures var t := FracText(l.frac) + (ExpText(l.exp) + rest); t == [] || !IsDigit(t[0])
  {
  }

  lemma WholeText(w: bytes, rest: bytes)
    requires w != [] && AllDigits(w) && (w[0] == ZERO ==> |w| == 1)
    requires rest == [] || !IsDigit(rest[0])
    ensures LexWhole(w + rest) == Some(Lexed(w, rest))
  {
    DigitRunOf(w, rest);
    assert (w + rest)[..|w|] == w && (w + rest)[|w|..] == rest;
  }

  lemma FracTextLexed(f: Option<bytes>, rest: bytes)
    requires f.Some? ==> f.value != [] && AllDigits(f.value)
    requires rest == [] || (!IsDigit(rest[0]) && rest[0] != DOT)
    ensures LexFrac(FracText(f) + rest) == Some(Lexed(f, rest))
  {
    if f.Some? {
      DigitRunOf(f.value, rest);
      var t := FracText(f) + rest;
      assert t[1..] == f.value + rest;
      assert t[1..][..|f.value|] == f.value && t[1..][|f.value|..] == rest;
    } else {
      assert FracText(f) + rest == rest;
    }
  }

  lemma SignedExponent(mark: byte, sign: byte, ds: bytes, rest: bytes)
    requires ExponentMark(mark) && (sign == MINUS || sign == PLUS) && ds != [] && AllDigits(ds)
    requires rest == [] || !IsDigit(rest[0])
    ensures LexExp([mark, sign] + (ds + rest)) == Some(Lexed(Some(Exponent(mark, Some(sign), ds)), rest))
  {
    hide DigitRun, AllDigits;
    DigitRunOf(ds, rest);
    var t := [mark, sign] + (ds + rest);
    assert t[0] == mark && t[1] == sign && t[2..] == ds + rest;
    assert (ds + rest)[..|ds|] == ds && (ds + rest)[|ds|..] == rest;
  }

  lemma UnsignedExponent(mark: byte, ds: bytes, rest: bytes)
    requires ExponentMark(mark) && ds != [] && AllDigits(ds)
    requires rest == [] || !IsDigit(rest[0])
    ensures LexExp([mark] + (ds + rest)) == Some(Lexed(Some(Exponent(mark, None, ds)), rest))
  {
    hide DigitRun;
    DigitRunOf(ds, rest);
    var t := [mark] + (ds + rest);
    assert ds[0] in ds;
    assert t[0] == mark && t[1] == ds[0] && t[1..] == ds + rest;
    assert (ds + rest)[..|ds|] == ds && (ds + rest)[|ds|..] == rest;
  }

  lemma ExpTextLexed(e: Option<Exponent>, rest: bytes)
    requires LiteralOk(Literal(false, [ZERO], None, e)) && EndsNumber(rest)
    ensures LexExp(ExpText(e) + rest) == Some(Lexed(e, rest))
  {
    hide LexExp, AllDigits;
    if e.None? {
      NoExponent(rest);
    } else if e.value.sign.Some? {
      SignedExponent(e.value.mark, e.value.sign.value, e.value.digits, rest);
      assert ExpText(e) + rest == [e.value.mark, e.value.sign.value] + (e.value.digits + rest);
    } else {
      UnsignedExponent(e.value.mark, e.value.digits, rest);
      assert ExpText(e) + rest == [e.value.mark] + (e.value.digits + rest);
    }
  }

  lemma NoExponent(rest: bytes)
    requires EndsNumber(rest)
    ensures LexExp(ExpText(None) + rest) == Some(Lexed(None, rest))
  {
    assert ExpText(None) + rest == rest;
  }

  // ----- the value of a literal -----

  function Pow10(e: nat): (p: nat)
    ensures p >= 1
  {
    if e == 0 then 1 else 10 * Pow10(e - 1)
  }

  function Digits(l: Number): bytes {
    l.whole + if l.frac.Some? then l.frac.value else []
  }

  function Coefficient(l: Number): nat {
    assert AllDigits(Digits(l));
    DigitsValue(Digits(l))
  }

  function Signed(neg: bool, n: int): int {
    if neg then -n else n
  }

  /** All digits read as one integer, with the sign. */
  function Mantissa(l: Number): int {
    Signed(l.neg, Coefficient(l))
  }

  /** The power of ten the mantissa is scaled by. */
  function Scale(l: Number): int {
    var written := if l.exp.None? then 0
                   else Signed(l.exp.value.sign == Some(MINUS), DigitsValue(l.exp.value.digits));
    written - if l.frac.Some? then |l.frac.value| else 0
  }

  /** The number the literal denotes, m * 10^e. */
  function Value(l: Number): real {
    var m, e := Mantissa(l), Scale(l);
    if e >= 0 then (m * Pow10(e)) as real else m as real / Pow10(-e) as real
  }

  const SAFE_LIMIT: int := 0x20_0000_0000_0000

  predicate Safe(n: int) {
    -SAFE_LIMIT < n < SAFE_LIMIT
  }

  datatype Verdict = SafeInteger(n: int) | NonInteger | UnsafeInteger

  /** The exact integer of a rational m * 10^e, if it is one (big.Rat, IsInt). */
  function IntegerOf(m: int, e: int): Option<int> {
    if e >= 0 then Some(m * Pow10(e))
    else if m % Pow10(-e) == 0 then Some(m / Pow10(-e))
    else None
  }

  /** checkSafeInteger. */
  function CheckSafeInteger(l: Number): Verdict {
    var n := IntegerOf(Mantissa(l), Scale(l));
    if n.None? then NonInteger
    else if !Safe(n.value) then UnsafeInteger
    else SafeInteger(n.value)
  }

  lemma QuotientIsInteger(m: int, p: int, n: int)
    requires p >= 1
    ensures m as real / p as real == n as real <==> m == n * p
  {
    assert (n * p) as real == n as real * p as real;
    assert m as real / p as real * p as real == m as real;
  }

  lemma ExactDivision(m: int, p: int)
    requires p >= 1
    ensures m % p == 0 <==> exists n :: m == n * p
    ensures forall n :: m == n * p ==> m % p == 0 && m / p == n
  {
    assert m == (m / p) * p + m % p;
    forall n | m == n * p ensures m % p == 0 && m / p == n {
      MultipleDivides(n, p);
    }
  }

  lemma MultipleDivides(n: int, p: int)
    requires p >= 1
    ensures (n * p) % p == 0 && (n * p) / p == n
  {
    var q, r := (n * p) / p, (n * p) % p;
    assert n * p == q * p + r && 0 <= r < p;
    assert (n - q) * p == r;
    assert n - q >= 1 ==> (n - q) * p >= p;
    assert n - q <= -1 ==> (n - q) * p <= -p;
  }

  /** IntegerOf finds the integer equal to the literal's value, when there is one. */
  lemma IntegerOfValue(l: Number, n: int)
    ensures IntegerOf(Mantissa(l), Scale(l)) == Some(n) <==> Value(l) == n as real
  {
    var m, e := Mantissa(l), Scale(l);
    if e < 0 {
      QuotientIsInteger(m, Pow10(-e), n);
      ExactDivision(m, Pow10(-e));
    }
  }

  /** Acceptance means: an integer of magnitude below 2^53, in any notation. */
  lemma AcceptedExactly(l: Number)
    ensures CheckSafeInteger(l).SafeInteger? <==> exists n: int :: Value(l) == n as real && Safe(n)
    ensures CheckSafeInteger(l).SafeInteger? ==> Value(l) == CheckSafeInteger(l).n as real && Safe(CheckSafeInteger(l).n)
  {
    var found := IntegerOf(Mantissa(l), Scale(l));
    if found.Some? {
      IntegerOfValue(l, found.value);
    }
    if n: int :| Value(l) == n as real && Safe(n) {
      IntegerOfValue(l, n);
    }
  }

  // ----- canonical text -----

  /** strconv.FormatInt. */
  function IntText(n: int): bytes {
    if n < 0 then [MINUS] + DecText(-n) else DecText(n)
  }

  function PlainLiteral(n: int): (l: Number)
    ensures LiteralText(l) == IntText(n)
    ensures Mantissa(l) == n && Scale(l) == 0
  {
    var ds := DecText(if n < 0 then -n else n);
    var l := Literal(n < 0, ds, None, None);
    assert ds + [] == ds;
    l
  }

  /** The literal has none of '.', 'e', 'E'. */
  predicate PlainNotation(l: Literal) {
    l.frac.None? && l.exp.None?
  }

  /** strconv.ParseInt on a token in plain notation. */
  function PlainInt(l: Number): Option<int> {
    if PlainNotation(l) then Some(Signed(l.neg, DigitsValue(l.whole))) else None
  }

  datatype FloatText = Decimal(text: bytes) | Fraction | ExponentForm

  /** formatES6Float on an exactly represented value. The texts of fractions and of
      the exponent form are not modelled: FloatBranches shows that neither is reached. */
  function FormatES6Float(f: real): FloatText {
    var abs := if f < 0.0 then -f else f;
    if f == 0.0 then Decimal([ZERO])
    else if abs < 1000000000000000000000.0 && abs >= 0.000001 then
      if f == f.Floor as real then Decimal(IntText(f.Floor)) else Fraction
    else ExponentForm
  }

  /** es6Number; None is its error. */
  function Es6Number(l: Number): Option<FloatText> {
    if !CheckSafeInteger(l).SafeInteger? then None
    else if PlainNotation(l) then
      var i := PlainInt(l).value;
      Some(Decimal(if i == 0 then [ZERO] else IntText(i)))
    else Some(FormatES6Float(Value(l)))
  }

  /** Every accepted literal is written as the plain decimal of its value, minus zero
      as 0; the exponent form is never reached. */
  lemma CanonicalNumber(l: Number)
    requires CheckSafeInteger(l).SafeInteger?
    ensures Es6Number(l) == Some(Decimal(IntText(CheckSafeInteger(l).n)))
  {
    hide FormatES6Float, Value, IntegerOf, Mantissa, Scale, IntText;
    var n := CheckSafeInteger(l).n;
    if PlainNotation(l) {
      PlainNotationValue(l);
      ZeroText();
    } else {
      AcceptedExactly(l);
      FloatBranches(n);
    }
  }

  lemma ZeroText()
    ensures IntText(0) == [ZERO]
  {
  }

  lemma PlainNotationValue(l: Number)
    requires PlainNotation(l)
    ensures IntegerOf(Mantissa(l), Scale(l)) == PlainInt(l)
  {
    assert Digits(l) == l.whole;
    assert Pow10(0) == 1;
  }

  lemma FloatBranches(n: int)
    requires Safe(n)
    ensures FormatES6Float(n as real) == Decimal(IntText(n))
  {
    var f := n as real;
    var abs := if f < 0.0 then -f else f;
    assert abs < 1000000000000000000000.0;
    assert n != 0 ==> abs >= 1.0;
    assert f.Floor == n;
    assert IntText(0) == [ZERO];
  }

  /** Equal values are written alike, different values differently. */
  lemma CanonicalByValue(k: Number, l: Number)
    requires CheckSafeInteger(k).SafeInteger? && CheckSafeInteger(l).SafeInteger?
    ensures Es6Number(k) == Es6Number(l) <==> Value(k) == Value(l)
  {
    CanonicalNumber(k);
    CanonicalNumber(l);
    AcceptedExactly(k);
    AcceptedExactly(l);
    IntTextInjective(CheckSafeInteger(k).n, CheckSafeInteger(l).n);
  }

  lemma IntTextInjective(m: int, n: int)
    ensures IntText(m) == IntText(n) <==> m == n
  {
    if IntText(m) == IntText(n) {
      var t := IntText(m);
      assert m >= 0 ==> t[0] in t;
      assert n >= 0 ==> t[0] in t;
      if m < 0 {
        assert t[1..] == DecText(-m) == DecText(-n);
      }
    }
  }

  lemma PlainLiteralAccepted(n: int)
    requires Safe(n)
    ensures CheckSafeInteger(PlainLiteral(n)) == SafeInteger(n)
  {
    assert Pow10(0) == 1;
  }

  // ----- the Python rail -----

  /** Decimal.to_integral_value on c * 10^-k: round half to even. */
  function RoundHalfEven(c: nat, p: nat): nat
    requires p >= 1
  {
    var q, r := c / p, c % p;
    if 2 * r < p || (2 * r == p && q % 2 == 0) then q else q + 1
  }

  /** What json.loads and the checks after it make of a literal: int() and
      _walk_check_ints in plain notation, _safe_integer_literal otherwise. None is a
      refusal. */
  function PyInteger(l: Number): Option<int> {
    if PlainNotation(l) then
      var n := PlainInt(l).value;
      if n <= -SAFE_LIMIT || n >= SAFE_LIMIT then None else Some(n)
    else
      var d := Value(l);
      var rounded := if Scale(l) >= 0 then d
                     else
                       var q := RoundHalfEven(Coefficient(l), Pow10(-Scale(l)));
                       Signed(l.neg, q) as real;
      if d != rounded then None
      else if !(-(SAFE_LIMIT as real) < d < SAFE_LIMIT as real) then None
      else Some(if d < 0.0 then -((-d).Floor) else d.Floor)
  }

  /** Both rails accept the same literals, with the same value. */
  lemma RailsReadNumbersAlike(l: Number)
    ensures PyInteger(l) == if CheckSafeInteger(l).SafeInteger? then Some(CheckSafeInteger(l).n) else None
  {
    var m, e := Mantissa(l), Scale(l);
    var found := IntegerOf(m, e);
    if found.Some? {
      IntegerOfValue(l, found.value);
    }
    if PlainNotation(l) {
      assert Digits(l) == l.whole;
      assert Pow10(0) == 1;
    } else if e < 0 {
      var c, p := Coefficient(l), Pow10(-e);
      var q := RoundHalfEven(c, p);
      var signed := Signed(l.neg, q);
      IntegerOfValue(l, signed);
      if found.Some? {
        RoundExact(m, c, p, found.value, l.neg);
      }
    }
  }

  lemma RoundExact(m: int, c: nat, p: nat, n: int, neg: bool)
    requires p >= 1 && m == Signed(neg, c) && m % p == 0 && n == m / p
    ensures RoundHalfEven(c, p) == Signed(neg, n)
  {
    ExactDivision(m, p);
    assert m == n * p;
    var k := Signed(neg, n);
    assert c == k * p;
    MultipleDivides(k, p);
    assert k < 0 ==> k * p < 0;
  }
}
