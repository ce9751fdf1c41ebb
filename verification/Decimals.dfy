/** The number a JSON literal denotes, figure by figure: the whole figures, the tenths
    behind the point, and the power of ten. */
module Decimals {
  import opened Core
  import opened Numbers

  function Figure(b: byte): int {
    b - 0x30
  }

  /** 10^e for any e. */
  function Ten(e: int): real
    decreases if e < 0 then -e else e
  {
    if e > 0 then 10.0 * Ten(e - 1) else if e < 0 then Ten(e + 1) / 10.0 else 1.0
  }

  /** The first figure counts most. */
  function Natural(ds: bytes): real {
    if ds == [] then 0.0 else Figure(ds[0]) as real * Ten(|ds| - 1) + Natural(ds[1..])
  }

  /** Each figure counts a tenth of the one before it. */
  function Tenths(ds: bytes): real {
    if ds == [] then 0.0 else (Figure(ds[0]) as real + Tenths(ds[1..])) / 10.0
  }

  function Exponentiated(l: Number, e: int): real {
    var size := (Natural(l.whole) + TenthsOf(l)) * Ten(e);
    if l.neg then -size else size
  }

  /** The exponent of a literal. */
  predicate ExponentIs(l: Number, e: int) {
    match l.exp
    case None => e == 0
    case Some(x) => e as real == if x.sign == Some(0x2D) then -Natural(x.digits) else Natural(x.digits)
  }

  // ----- powers -----

  lemma {:induction false} TenIsPow(e: nat)
    ensures Ten(e) == Pow10(e) as real
  {
    if e > 0 {
      TenIsPow(e - 1);
    }
  }

  lemma {:induction false} TenNegative(e: nat)
    ensures Ten(0 - e) * Pow10(e) as real == 1.0
  {
    if e > 0 {
      TenNegative(e - 1);
      var t, p := Ten(0 - (e - 1)), Pow10(e - 1) as real;
      assert Pow10(e) as real == 10.0 * p;
      assert Ten(0 - e) == t / 10.0;
      assert t / 10.0 * (10.0 * p) == t * p;
    }
  }

  lemma {:induction false} TenLess(e: int, k: nat)
    ensures Ten(e - k) * Pow10(k) as real == Ten(e)
  {
    if k > 0 {
      TenLess(e, k - 1);
      var n := e - k + 1;
      assert Ten(n) == 10.0 * Ten(n - 1) by { TenStep(n); }
      var t, p := Ten(n - 1), Pow10(k - 1) as real;
      assert Pow10(k) as real == 10.0 * p;
      assert t * (10.0 * p) == (10.0 * t) * p;
    }
  }

  lemma TenStep(n: int)
    ensures Ten(n) == 10.0 * Ten(n - 1)
  {
    if n <= 0 {
      assert Ten(n - 1) == Ten(n) / 10.0;
    }
  }

  // ----- figures -----

  lemma {:induction false} ValueAppend(a: bytes, b: bytes)
    requires AllDigits(a) && AllDigits(b)
    ensures AllDigits(a + b) && DigitsValue(a + b) == DigitsValue(a) * Pow10(|b|) + DigitsValue(b)
    decreases |b|
  {
    if b == [] {
      assert a + b == a;
    } else {
      var init, last := b[..|b| - 1], b[|b| - 1];
      assert last in b;
      ValueAppend(a, init);
      assert (a + b)[..|a + b| - 1] == a + init && (a + b)[|a + b| - 1] == last;
      Spread(DigitsValue(a), Pow10(|init|), DigitsValue(init), last - 0x30);
    }
  }

  lemma Spread(v: int, p: int, w: int, d: int)
    ensures 10 * (v * p + w) + d == v * (10 * p) + (10 * w + d)
  {
  }

  /** The first figure in front of the others. */
  lemma FirstFigure(ds: bytes)
    requires ds != [] && AllDigits(ds)
    ensures AllDigits(ds[1..])
    ensures DigitsValue(ds) as real == Figure(ds[0]) as real * Pow10(|ds| - 1) as real + DigitsValue(ds[1..]) as real
  {
    hide DigitsValue, Pow10;
    var first, more := ds[..1], ds[1..];
    assert ds[0] in ds;
    assert forall d :: d in more ==> d in ds;
    ValueAppend(first, more);
    assert ds == first + more && first == [ds[0]];
    OneFigure(ds[0]);
    ToReal(DigitsValue(ds), Figure(ds[0]), Pow10(|more|), DigitsValue(more));
  }

  lemma ToReal(v: int, d: int, p: int, w: int)
    requires v == d * p + w
    ensures v as real == d as real * p as real + w as real
  {
    assert (d * p) as real == d as real * p as real;
  }

  lemma {:induction false} NaturalIs(ds: bytes)
    requires AllDigits(ds)
    ensures Natural(ds) == DigitsValue(ds) as real
  {
    hide Ten, Pow10, Figure;
    if ds != [] {
      FirstFigure(ds);
      NaturalIs(ds[1..]);
      TenIsPow(|ds| - 1);
    }
  }

  lemma OneFigure(d: byte)
    requires IsDigit(d)
    ensures DigitsValue([d]) == Figure(d)
  {
    assert [d][..0] == [];
  }

  lemma {:induction false} TenthsIs(ds: bytes)
    requires AllDigits(ds)
    ensures Tenths(ds) * Pow10(|ds|) as real == DigitsValue(ds) as real
  {
    hide Figure;
    if ds != [] {
      FirstFigure(ds);
      TenthsIs(ds[1..]);
      TenthOf(Figure(ds[0]) as real, Tenths(ds[1..]), Pow10(|ds| - 1) as real);
      assert Pow10(|ds|) as real == 10.0 * Pow10(|ds| - 1) as real;
    }
  }

  lemma TenthOf(f: real, t: real, p: real)
    ensures (f + t) / 10.0 * (10.0 * p) == f * p + t * p
  {
  }

  // ----- the literal -----

  function TenthsOf(l: Number): real {
    if l.frac.Some? then Tenths(l.frac.value) else 0.0
  }

  function Places(l: Number): nat {
    if l.frac.Some? then |l.frac.value| else 0
  }

  lemma CoefficientIs(l: Number)
    ensures Coefficient(l) as real == (Natural(l.whole) + TenthsOf(l)) * Pow10(Places(l)) as real
  {
    hide Natural, Tenths, DigitsValue;
    NaturalIs(l.whole);
    if l.frac.Some? {
      TenthsIs(l.frac.value);
      ValueAppend(l.whole, l.frac.value);
      var p := Pow10(Places(l));
      ToReal(Coefficient(l), DigitsValue(l.whole), p, DigitsValue(l.frac.value));
      RealSpread(Natural(l.whole), TenthsOf(l), p as real);
    } else {
      assert l.whole + [] == l.whole;
    }
  }

  lemma RealSpread(n: real, t: real, p: real)
    ensures (n + t) * p == n * p + t * p
  {
  }

  lemma ExponentExists(l: Number) returns (e: int)
    ensures ExponentIs(l, e)
    ensures Scale(l) == e - Places(l)
  {
    e := 0;
    if l.exp.Some? {
      NaturalIs(l.exp.value.digits);
      e := Signed(l.exp.value.sign == Some(MINUS), DigitsValue(l.exp.value.digits));
    }
  }

  lemma OneExponent(l: Number, e: int, f: int)
    requires ExponentIs(l, e) && ExponentIs(l, f)
    ensures e == f
  {
  }

  /** A literal denotes its figures, those behind the point as tenths, times ten to its
      exponent. */
  lemma ValuePlainly(l: Number, e: int)
    requires ExponentIs(l, e)
    ensures Numbers.Value(l) == Exponentiated(l, e)
  {
    hide Coefficient, Natural, Tenths, Ten, Pow10, Scale;
    var f := ExponentExists(l);
    OneExponent(l, e, f);
    var k := Places(l);
    var size := Natural(l.whole) + TenthsOf(l);
    CoefficientIs(l);
    TenLess(e, k);
    Scaled(Coefficient(l) as real, size, Pow10(k) as real, Ten(e - k), Ten(e));
    ValueScaled(Mantissa(l), e - k);
    assert Scale(l) == e - k;
    Negated(Coefficient(l) as real, Ten(e - k));
  }

  lemma Negated(c: real, t: real)
    ensures (-c) * t == -(c * t)
  {
  }

  /** m times ten to the e, as Value computes it. */
  lemma ValueScaled(m: int, e: int)
    ensures (if e >= 0 then (m * Pow10(e)) as real else m as real / Pow10(-e) as real) == m as real * Ten(e)
  {
    hide Ten, Pow10;
    if e >= 0 {
      TenIsPow(e);
      ToReal(m * Pow10(e), m, Pow10(e), 0);
    } else {
      TenNegative(-e);
      assert 0 - -e == e;
      Divided(m as real, Pow10(-e) as real, Ten(e));
    }
  }

  lemma Scaled(c: real, size: real, p: real, low: real, high: real)
    requires c == size * p && low * p == high
    ensures c * low == size * high
  {
  }

  lemma Divided(c: real, p: real, inverse: real)
    requires p >= 1.0 && inverse * p == 1.0
    ensures c / p == c * inverse
  {
    assert inverse == 1.0 / p;
  }
}
