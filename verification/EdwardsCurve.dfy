/** The curve that packaging/run_vectors.py adds on: -x^2 + y^2 = 1 + d x^2 y^2 modulo p
    (RFC 8032, section 5.1.4). _pt_add never leaves it and never divides by zero, so of
    the group law only associativity is left as a hypothesis. */
module EdwardsCurve {
  import opened Core
  import opened Ed25519

  /** On the curve, in extended coordinates. */
  predicate OnCurve(p: Point) {
    && p.z % P != 0 && Cong(p.x * p.y, p.z * p.t)
    && Cong(p.y * p.y - p.x * p.x, p.z * p.z + D * (p.t * p.t))
  }

  predicate NotSquareAt(u: int, v: int) {
    v % P != 0 ==> !Cong(D * (v * v), u * u)
  }

  /** p has no zero divisors, d is no square modulo p, and -1 is the square of _I. */
  ghost predicate Constants() {
    Field() && Cong(I * I, -1) && forall u: int, v: int :: NotSquareAt(u, v)
  }

  // ----- the equation of the sum -----

  function Left(k: int, c: int, m: int, s: int, s': int, w: int, w': int): int {
    k * (s * s') + c * (m + 4 * (w * w'))
  }

  function Right(b: int, d: int, m: int, s: int, s': int, w: int, w': int): int {
    b + d * ((w * w) * (s' * s' + 4 * (w' * w')) + (w' * w') * (s * s + 4 * (w * w)) + 2 * ((w * w') * m))
  }

  /** The two sides of the equation, for the sum of (x, y) and (x', y') over the
      denominators a - c and a + c. */
  lemma SumExpands(x: int, y: int, x': int, y': int, a: int, c: int, d: int)
    ensures var e, h, f, g := x * y' + y * x', y * y' + x * x', a - c, a + c;
            var s, s', w, w' := y * y - x * x, y' * y' - x' * x', x * y, x' * y';
            var m := (x * x + y * y) * (x' * x' + y' * y');
            && (g * h) * (g * h) - (e * f) * (e * f) == Left(a * a + c * c, 2 * (a * c), m, s, s', w, w')
            && (f * g) * (f * g) + d * ((e * h) * (e * h))
               == Right((a * a - c * c) * (a * a - c * c), d, m, s, s', w, w')
  {
    var e, h, f, g := x * y' + y * x', y * y' + x * x', a - c, a + c;
    var s, s', w, w' := y * y - x * x, y' * y' - x' * x', x * y, x' * y';
    var u, u' := x * x + y * y, x' * x' + y' * y';
    Squares(x, y, x', y');
    SquareOfSum(x, y);
    SquareOfSum(x', y');
    LeftSplits(e, h, a, c);
    assert (g * h) * (g * h) - (e * f) * (e * f)
      == (a * a + c * c) * (h * h - e * e) + 2 * (a * c) * (h * h + e * e);
    Conjugates(a, c);
    CrossSquare(w, w', u, u');
    assert (e * h) * (e * h) == (w * w) * (u' * u') + (w' * w') * (u * u) + 2 * ((w * w') * (u * u'));
  }

  lemma Squares(x: int, y: int, x': int, y': int)
    ensures var e, h := x * y' + y * x', y * y' + x * x';
            && h * h - e * e == (y * y - x * x) * (y' * y' - x' * x')
            && h * h + e * e == (x * x + y * y) * (x' * x' + y' * y') + 4 * ((x * y) * (x' * y'))
            && e * h == (x * y) * (x' * x' + y' * y') + (x' * y') * (x * x + y * y)
  {
  }

  lemma SquareOfSum(x: int, y: int)
    ensures (x * x + y * y) * (x * x + y * y) == (y * y - x * x) * (y * y - x * x) + 4 * ((x * y) * (x * y))
  {
  }

  lemma LeftSplits(e: int, h: int, a: int, c: int)
    ensures ((a + c) * h) * ((a + c) * h) - (e * (a - c)) * (e * (a - c))
            == (a * a + c * c) * (h * h - e * e) + 2 * (a * c) * (h * h + e * e)
  {
  }

  lemma Conjugates(a: int, c: int)
    ensures ((a - c) * (a + c)) * ((a - c) * (a + c)) == (a * a - c * c) * (a * a - c * c)
  {
  }

  lemma CrossSquare(w: int, w': int, u: int, u': int)
    ensures (w * u' + w' * u) * (w * u' + w' * u)
            == (w * w) * (u' * u') + (w' * w') * (u * u) + 2 * ((w * w') * (u * u'))
  {
  }

  /** Over points of the curve the two sides are the same number. */
  lemma SidesMeet(z: int, t: int, z': int, t': int, d: int, m: int)
    ensures var a, c := z * z', d * (t * t');
            var s, s', w, w' := z * z + d * (t * t), z' * z' + d * (t' * t'), z * t, z' * t';
            Left(a * a + c * c, 2 * (a * c), m, s, s', w, w')
            == Right((a * a - c * c) * (a * a - c * c), d, m, s, s', w, w')
  {
    var a, c := z * z', d * (t * t');
    var p, q, p', q' := z * z, d * (t * t), z' * z', d * (t' * t');
    assert a * a == p * p' && c * c == q * q' by { SquareOfProduct(z, z'); SquareScaled(d, t, t'); }
    Parts(p, q, p', q');
    CrossTerm(z, t, z', t', d, m);
    WeightedSquares(z, t, z', t', d);
  }

  lemma SquareOfProduct(z: int, z': int)
    ensures (z * z') * (z * z') == (z * z) * (z' * z')
  {
  }

  lemma SquareScaled(d: int, t: int, t': int)
    ensures (d * (t * t')) * (d * (t * t')) == (d * (t * t)) * (d * (t' * t'))
  {
  }

  lemma Parts(p: int, q: int, p': int, q': int)
    ensures (p * p' + q * q') * ((p + q) * (p' + q'))
            == (p * p' - q * q') * (p * p' - q * q') + (p * q) * ((p' + q') * (p' + q')) + (p' * q') * ((p + q) * (p + q))
  {
  }

  lemma CrossTerm(z: int, t: int, z': int, t': int, d: int, m: int)
    ensures 2 * ((z * z') * (d * (t * t'))) * m == d * (2 * (((z * t) * (z' * t')) * m))
    ensures 2 * ((z * z') * (d * (t * t'))) * (4 * ((z * t) * (z' * t')))
            == d * (8 * (((z * t) * (z * t)) * ((z' * t') * (z' * t'))))
  {
  }

  lemma WeightedSquares(z: int, t: int, z': int, t': int, d: int)
    ensures (z * z) * (d * (t * t)) == d * ((z * t) * (z * t)) && (z' * z') * (d * (t' * t')) == d * ((z' * t') * (z' * t'))
  {
  }

  // ----- congruent sides -----

  lemma CongSquare(a: int, b: int)
    requires Cong(a, b)
    ensures Cong(a * a, b * b)
  {
    CongMul(a, b, a, b);
  }

  lemma CongScale(k: int, a: int, b: int)
    requires Cong(a, b)
    ensures Cong(k * a, k * b)
  {
    hide Cong;
    CongRefl(k);
    CongMul(k, k, a, b);
  }

  lemma CongShift(k: int, a: int, b: int)
    requires Cong(a, b)
    ensures Cong(k + a, k + b)
  {
    hide Cong;
    CongRefl(k);
    CongAdd(k, k, a, b);
  }

  lemma LeftCong(k: int, c: int, m: int, s: int, s': int, w: int, w': int, s0: int, s0': int, w0: int, w0': int)
    requires Cong(s, s0) && Cong(s', s0') && Cong(w, w0) && Cong(w', w0')
    ensures Cong(Left(k, c, m, s, s', w, w'), Left(k, c, m, s0, s0', w0, w0'))
  {
    hide Cong;
    CongMul(s, s0, s', s0');
    CongScale(k, s * s', s0 * s0');
    CongMul(w, w0, w', w0');
    CongScale(4, w * w', w0 * w0');
    CongShift(m, 4 * (w * w'), 4 * (w0 * w0'));
    CongScale(c, m + 4 * (w * w'), m + 4 * (w0 * w0'));
    CongAdd(k * (s * s'), k * (s0 * s0'), c * (m + 4 * (w * w')), c * (m + 4 * (w0 * w0')));
  }

  lemma TermCong(w: int, s: int, v: int, w0: int, s0: int, v0: int)
    requires Cong(w, w0) && Cong(s, s0) && Cong(v, v0)
    ensures Cong((w * w) * (s * s + 4 * (v * v)), (w0 * w0) * (s0 * s0 + 4 * (v0 * v0)))
  {
    hide Cong;
    CongSquare(w, w0);
    CongSquare(s, s0);
    CongSquare(v, v0);
    CongScale(4, v * v, v0 * v0);
    CongAdd(s * s, s0 * s0, 4 * (v * v), 4 * (v0 * v0));
    CongMul(w * w, w0 * w0, s * s + 4 * (v * v), s0 * s0 + 4 * (v0 * v0));
  }

  lemma RightCong(b: int, d: int, m: int, s: int, s': int, w: int, w': int, s0: int, s0': int, w0: int, w0': int)
    requires Cong(s, s0) && Cong(s', s0') && Cong(w, w0) && Cong(w', w0')
    ensures Cong(Right(b, d, m, s, s', w, w'), Right(b, d, m, s0, s0', w0, w0'))
  {
    hide Cong;
    TermCong(w, s', w', w0, s0', w0');
    TermCong(w', s, w, w0', s0, w0);
    var one, one0 := (w * w) * (s' * s' + 4 * (w' * w')), (w0 * w0) * (s0' * s0' + 4 * (w0' * w0'));
    var two, two0 := (w' * w') * (s * s + 4 * (w * w)), (w0' * w0') * (s0 * s0 + 4 * (w0 * w0));
    CongMul(w, w0, w', w0');
    CongRefl(m);
    CongMul(w * w', w0 * w0', m, m);
    CongScale(2, (w * w') * m, (w0 * w0') * m);
    CongAdd(one, one0, two, two0);
    CongAdd(one + two, one0 + two0, 2 * ((w * w') * m), 2 * ((w0 * w0') * m));
    CongScale(d, one + two + 2 * ((w * w') * m), one0 + two0 + 2 * ((w0 * w0') * m));
    CongShift(b, d * (one + two + 2 * ((w * w') * m)), d * (one0 + two0 + 2 * ((w0 * w0') * m)));
  }

  /** The equation for the four factors of a sum, halved. */
  lemma HalvesOnCurve(p: Point, q: Point)
    requires OnCurve(p) && OnCurve(q)
    ensures var e, h := p.x * q.y + p.y * q.x, p.y * q.y + p.x * q.x;
            var a, c := p.z * q.z, D * (p.t * q.t);
            var f, g := a - c, a + c;
            Cong((g * h) * (g * h) - (e * f) * (e * f), (f * g) * (f * g) + D * ((e * h) * (e * h)))
  {
    hide Cong, Left, Right;
    var a, c := p.z * q.z, D * (p.t * q.t);
    var s, s', w, w' := p.y * p.y - p.x * p.x, q.y * q.y - q.x * q.x, p.x * p.y, q.x * q.y;
    var s0, s0', w0, w0' := p.z * p.z + D * (p.t * p.t), q.z * q.z + D * (q.t * q.t), p.z * p.t, q.z * q.t;
    var m := (p.x * p.x + p.y * p.y) * (q.x * q.x + q.y * q.y);
    var k, b := a * a + c * c, (a * a - c * c) * (a * a - c * c);
    SumExpands(p.x, p.y, q.x, q.y, a, c, D);
    SidesMeet(p.z, p.t, q.z, q.t, D, m);
    LeftCong(k, 2 * (a * c), m, s, s', w, w', s0, s0', w0, w0');
    RightCong(b, D, m, s, s', w, w', s0, s0', w0, w0');
    CongSym(Right(b, D, m, s, s', w, w'), Right(b, D, m, s0, s0', w0, w0'));
    CongTrans(Left(k, 2 * (a * c), m, s, s', w, w'), Left(k, 2 * (a * c), m, s0, s0', w0, w0'), Right(b, D, m, s, s', w, w'));
  }

  /** The factors are twice these halves. */
  lemma FactorsAreHalves(p: Point, q: Point)
    ensures E(p, q) == 2 * (p.x * q.y + p.y * q.x) && H(p, q) == 2 * (p.y * q.y + p.x * q.x)
    ensures F(p, q) == 2 * (p.z * q.z - D * (p.t * q.t)) && G(p, q) == 2 * (p.z * q.z + D * (p.t * q.t))
  {
    DoubleCross(p.x, p.y, q.x, q.y);
    assert p.t * 2 * D * q.t == 2 * (D * (p.t * q.t));
    assert p.z * 2 * q.z == 2 * (p.z * q.z);
  }

  lemma DoubleCross(x: int, y: int, x': int, y': int)
    ensures (y + x) * (y' + x') - (y - x) * (y' - x') == 2 * (x * y' + y * x')
    ensures (y + x) * (y' + x') + (y - x) * (y' - x') == 2 * (y * y' + x * x')
  {
  }

  lemma Sixteen(e: int, f: int, g: int, h: int, d: int)
    ensures ((2 * g) * (2 * h)) * ((2 * g) * (2 * h)) - ((2 * e) * (2 * f)) * ((2 * e) * (2 * f))
            == 16 * ((g * h) * (g * h) - (e * f) * (e * f))
    ensures ((2 * f) * (2 * g)) * ((2 * f) * (2 * g)) + d * (((2 * e) * (2 * h)) * ((2 * e) * (2 * h)))
            == 16 * ((f * g) * (f * g) + d * ((e * h) * (e * h)))
  {
    assert ((2 * g) * (2 * h)) == 4 * (g * h) && ((2 * e) * (2 * f)) == 4 * (e * f);
    assert ((2 * f) * (2 * g)) == 4 * (f * g) && ((2 * e) * (2 * h)) == 4 * (e * h);
    SixteenSquares(g * h, e * f, 1);
    SixteenSquares(f * g, e * h, d);
  }

  lemma SixteenSquares(a: int, b: int, d: int)
    ensures (4 * a) * (4 * a) == 16 * (a * a) && d * ((4 * b) * (4 * b)) == 16 * (d * (b * b))
  {
  }

  lemma SumEquation(p: Point, q: Point)
    requires OnCurve(p) && OnCurve(q)
    ensures var r := Add(p, q); Cong(r.y * r.y - r.x * r.x, r.z * r.z + D * (r.t * r.t))
  {
    hide Cong, Add, E, F, G, H, OnCurve;
    var r := Add(p, q);
    var e, f, g, h := E(p, q), F(p, q), G(p, q), H(p, q);
    AddFactors(p, q);
    FactorsAreHalves(p, q);
    HalvesOnCurve(p, q);
    Sixteen(p.x * q.y + p.y * q.x, p.z * q.z - D * (p.t * q.t), p.z * q.z + D * (p.t * q.t), p.y * q.y + p.x * q.x, D);
    EquationScaled(p, q);
    CongSquare(r.y, g * h);
    CongSquare(r.x, e * f);
    CongSquare(r.z, f * g);
    CongSquare(r.t, e * h);
    CongSub(r.y * r.y, (g * h) * (g * h), r.x * r.x, (e * f) * (e * f));
    CongScale(D, r.t * r.t, (e * h) * (e * h));
    CongAdd(r.z * r.z, (f * g) * (f * g), D * (r.t * r.t), D * ((e * h) * (e * h)));
    CongSym(r.z * r.z + D * (r.t * r.t), (f * g) * (f * g) + D * ((e * h) * (e * h)));
    CongTrans(r.y * r.y - r.x * r.x, (g * h) * (g * h) - (e * f) * (e * f), (f * g) * (f * g) + D * ((e * h) * (e * h)));
    CongTrans(r.y * r.y - r.x * r.x, (f * g) * (f * g) + D * ((e * h) * (e * h)), r.z * r.z + D * (r.t * r.t));
  }

  lemma EquationScaled(p: Point, q: Point)
    requires OnCurve(p) && OnCurve(q)
    ensures var e, f, g, h := E(p, q), F(p, q), G(p, q), H(p, q);
            Cong((g * h) * (g * h) - (e * f) * (e * f), (f * g) * (f * g) + D * ((e * h) * (e * h)))
  {
    hide Cong, E, F, G, H, OnCurve;
    var e, h := p.x * q.y + p.y * q.x, p.y * q.y + p.x * q.x;
    var f, g := p.z * q.z - D * (p.t * q.t), p.z * q.z + D * (p.t * q.t);
    FactorsAreHalves(p, q);
    HalvesOnCurve(p, q);
    Sixteen(e, f, g, h, D);
    CongScale(16, (g * h) * (g * h) - (e * f) * (e * f), (f * g) * (f * g) + D * ((e * h) * (e * h)));
  }

  // ----- no sum divides by zero -----

  /** (i x + turn y)^2 on the curve. */
  lemma TurnedSquare(p: Point, turn: int)
    requires OnCurve(p) && Cong(I * I, -1) && (turn == 1 || turn == -1)
    ensures Cong((I * p.x + turn * p.y) * (I * p.x + turn * p.y),
                 (p.z * p.z + D * (p.t * p.t)) + (2 * turn) * (I * (p.z * p.t)))
  {
    hide Cong;
    var i := I;
    BinomialSquare(i, p.x, turn, p.y);
    CongRefl(p.x * p.x);
    CongMul(i * i, -1, p.x * p.x, p.x * p.x);
    CongRefl(p.y * p.y);
    CongAdd((i * i) * (p.x * p.x), -1 * (p.x * p.x), p.y * p.y, p.y * p.y);
    assert -1 * (p.x * p.x) + p.y * p.y == p.y * p.y - p.x * p.x;
    CongTrans((i * i) * (p.x * p.x) + p.y * p.y, p.y * p.y - p.x * p.x, p.z * p.z + D * (p.t * p.t));
    CongScale(i, p.x * p.y, p.z * p.t);
    CongScale(2 * turn, i * (p.x * p.y), i * (p.z * p.t));
    CongAdd((i * i) * (p.x * p.x) + p.y * p.y, p.z * p.z + D * (p.t * p.t),
      (2 * turn) * (i * (p.x * p.y)), (2 * turn) * (i * (p.z * p.t)));
  }

  lemma BinomialSquare(i: int, x: int, turn: int, y: int)
    requires turn == 1 || turn == -1
    ensures (i * x + turn * y) * (i * x + turn * y) == (i * i) * (x * x) + y * y + (2 * turn) * (i * (x * y))
  {
  }

  lemma TurnedSquares(p: Point, q: Point, sign: int, turn: int)
    requires OnCurve(p) && OnCurve(q) && Cong(I * I, -1)
    requires (sign == 1 || sign == -1) && (turn == 1 || turn == -1)
    requires Cong(D * (p.t * q.t), sign * (p.z * q.z))
    ensures Cong(D * ((p.t * (I * q.x + turn * q.y)) * (p.t * (I * q.x + turn * q.y))),
                 (q.z * (I * p.x + (sign * turn) * p.y)) * (q.z * (I * p.x + (sign * turn) * p.y)))
  {
    hide Cong, OnCurve;
    var i, a, c := I, p.z * q.z, D * (p.t * q.t);
    var u, v := i * q.x + turn * q.y, i * p.x + (sign * turn) * p.y;
    TurnedSquare(q, turn);
    TurnedSquare(p, sign * turn);
    var u0 := (q.z * q.z + D * (q.t * q.t)) + (2 * turn) * (i * (q.z * q.t));
    var v0 := (p.z * p.z + D * (p.t * p.t)) + (2 * (sign * turn)) * (i * (p.z * p.t));
    CongScale(D * (p.t * p.t), u * u, u0);
    CongScale(q.z * q.z, v * v, v0);
    assert D * ((p.t * u) * (p.t * u)) == (D * (p.t * p.t)) * (u * u) by { Gather(D, p.t, u); }
    assert (q.z * v) * (q.z * v) == (q.z * q.z) * (v * v) by { Gather(1, q.z, v); }
    // both are D t^2 z'^2 plus the same number modulo p
    var common, turned := (D * (p.t * p.t)) * (q.z * q.z), (2 * turn) * (i * (p.t * q.z));
    TurnedSides(p.z, p.t, q.z, q.t, D, i, sign, turn);
    SignedSquare(c, a, sign);
    CongScale(turned, c, sign * a);
    CongAdd(c * c, a * a, turned * c, turned * (sign * a));
    CongShift(common, c * c + turned * c, a * a + turned * (sign * a));
    CongTrans(D * ((p.t * u) * (p.t * u)), (D * (p.t * p.t)) * u0, (q.z * q.z) * v0);
    CongSym((q.z * v) * (q.z * v), (q.z * q.z) * v0);
    CongTrans(D * ((p.t * u) * (p.t * u)), (q.z * q.z) * v0, (q.z * v) * (q.z * v));
  }

  lemma Gather(d: int, t: int, u: int)
    ensures d * ((t * u) * (t * u)) == (d * (t * t)) * (u * u)
  {
  }

  lemma SignedSquare(c: int, a: int, sign: int)
    requires Cong(c, sign * a) && (sign == 1 || sign == -1)
    ensures Cong(c * c, a * a)
  {
    hide Cong;
    CongSquare(c, sign * a);
    assert (sign * a) * (sign * a) == a * a;
  }

  lemma TurnedSides(z: int, t: int, z': int, t': int, d: int, i: int, sign: int, turn: int)
    requires sign == 1 || sign == -1
    ensures var a, c := z * z', d * (t * t');
            var common, turned := (d * (t * t)) * (z' * z'), (2 * turn) * (i * (t * z'));
            && (d * (t * t)) * ((z' * z' + d * (t' * t')) + (2 * turn) * (i * (z' * t'))) == common + (c * c + turned * c)
            && (z' * z') * ((z * z + d * (t * t)) + (2 * (sign * turn)) * (i * (z * t)))
               == common + (a * a + turned * (sign * a))
  {
    TurnedLeft(z', t, t', d, i, turn);
    TurnedRight(z, t, z', d, i, sign, turn);
  }

  lemma TurnedLeft(z': int, t: int, t': int, d: int, i: int, turn: int)
    ensures var c, turned := d * (t * t'), (2 * turn) * (i * (t * z'));
            (d * (t * t)) * ((z' * z' + d * (t' * t')) + (2 * turn) * (i * (z' * t')))
            == (d * (t * t)) * (z' * z') + (c * c + turned * c)
  {
    SquareScaled(d, t, t');
    assert (d * (t * t)) * ((2 * turn) * (i * (z' * t'))) == ((2 * turn) * (i * (t * z'))) * (d * (t * t'));
  }

  lemma TurnedRight(z: int, t: int, z': int, d: int, i: int, sign: int, turn: int)
    ensures var a, turned := z * z', (2 * turn) * (i * (t * z'));
            (z' * z') * ((z * z + d * (t * t)) + (2 * (sign * turn)) * (i * (z * t)))
            == (d * (t * t)) * (z' * z') + (a * a + turned * (sign * a))
  {
    SquareOfProduct(z, z');
    assert (z' * z') * ((2 * (sign * turn)) * (i * (z * t))) == ((2 * turn) * (i * (t * z'))) * (sign * (z * z'));
  }

  /** A factor that is not zero leaves the other to be zero. */
  lemma OtherZero(a: int, b: int)
    requires Field() && (a * b) % P == 0 && a % P != 0
    ensures b % P == 0
  {
    assert Cancels(a, b);
  }

  lemma ZeroProduct(a: int, b: int)
    requires a % P == 0
    ensures (a * b) % P == 0 && (b * a) % P == 0
  {
    ProductMultiple(a, b, P);
    assert b * a == a * b;
  }

  lemma CongZero(a: int, b: int)
    requires Cong(a, b)
    ensures a % P == 0 <==> b % P == 0
  {
    if b % P == 0 {
      SumMultiple(a - b, b, P);
      assert a - b + b == a;
    }
    if a % P == 0 {
      CongSym(a, b);
      SumMultiple(b - a, a, P);
      assert b - a + a == b;
    }
  }

  lemma SignKeeps(sign: int, a: int)
    requires (sign == 1 || sign == -1) && a % P != 0
    ensures (sign * a) % P != 0
  {
    assert (sign * a) * sign == a;
    if (sign * a) % P == 0 {
      ZeroProduct(sign * a, sign);
    }
  }

  /** Neither T is zero where d t t' is the product z z' up to sign. */
  lemma TNotZero(p: Point, q: Point, sign: int)
    requires Field() && p.z % P != 0 && q.z % P != 0 && (sign == 1 || sign == -1)
    requires Cong(D * (p.t * q.t), sign * (p.z * q.z))
    ensures p.t % P != 0 && q.t % P != 0
  {
    hide Cong, Field;
    NonZeroProduct(p.z, q.z);
    SignKeeps(sign, p.z * q.z);
    CongZero(D * (p.t * q.t), sign * (p.z * q.z));
    if p.t % P == 0 || q.t % P == 0 {
      if p.t % P == 0 { ZeroProduct(p.t, q.t); } else { ZeroProduct(q.t, p.t); }
      ZeroProduct(p.t * q.t, D);
    }
  }

  lemma RootVanishes(p: Point, q: Point, sign: int, turn: int)
    requires Constants() && OnCurve(p) && OnCurve(q) && (sign == 1 || sign == -1) && (turn == 1 || turn == -1)
    requires Cong(D * (p.t * q.t), sign * (p.z * q.z)) && p.t % P != 0
    ensures (I * q.x + turn * q.y) % P == 0
  {
    hide Cong, OnCurve, Field;
    TurnedSquares(p, q, sign, turn);
    assert NotSquareAt(q.z * (I * p.x + (sign * turn) * p.y), p.t * (I * q.x + turn * q.y));
    OtherZero(p.t, I * q.x + turn * q.y);
  }

  /** d t t' is never the product z z' up to sign: d would be a square. */
  lemma NeverProduct(p: Point, q: Point, sign: int)
    requires Constants() && OnCurve(p) && OnCurve(q) && (sign == 1 || sign == -1)
    ensures !Cong(D * (p.t * q.t), sign * (p.z * q.z))
  {
    hide Cong, Field, Constants;
    if Cong(D * (p.t * q.t), sign * (p.z * q.z)) {
      assert Field() by { ConstantsGive(); }
      TNotZero(p, q, sign);
      RootVanishes(p, q, sign, 1);
      RootVanishes(p, q, sign, -1);
      MinusMultiple(I * q.x + -1 * q.y, P);
      SumMultiple(I * q.x + 1 * q.y, -(I * q.x + -1 * q.y), P);
      assert (I * q.x + 1 * q.y) + -(I * q.x + -1 * q.y) == 2 * q.y;
      OtherZero(2, q.y);
      ZeroProduct(q.y, q.x);
      CongZero(q.x * q.y, q.z * q.t);
      OtherZero(q.z, q.t);
    }
  }

  lemma ConstantsGive()
    requires Constants()
    ensures Field() && Cong(I * I, -1)
  {
  }

  lemma FactorsNotZero(p: Point, q: Point)
    requires Constants() && OnCurve(p) && OnCurve(q)
    ensures F(p, q) % P != 0 && G(p, q) % P != 0
  {
    hide OnCurve, Field, Constants, E, F, G, H;
    ConstantsGive();
    FactorsAreHalves(p, q);
    var a, c := p.z * q.z, D * (p.t * q.t);
    NeverProduct(p, q, 1);
    NeverProduct(p, q, -1);
    assert -(a - c) == c - 1 * a && a + c == c - -1 * a;
    if F(p, q) % P == 0 {
      OtherZero(2, a - c);
      MinusMultiple(a - c, P);
    }
    if G(p, q) % P == 0 {
      OtherZero(2, a + c);
    }
  }

  /** The curve is closed under _pt_add, which never divides by zero on it. */
  lemma SumOnCurve(p: Point, q: Point)
    requires Constants() && OnCurve(p) && OnCurve(q)
    ensures OnCurve(Add(p, q))
  {
    hide Cong, Add, Field, Constants, E, F, G, H;
    var r := Add(p, q);
    ConstantsGive();
    AddFactors(p, q);
    FactorsNotZero(p, q);
    NonZeroProduct(F(p, q), G(p, q));
    CongZero(r.z, F(p, q) * G(p, q));
    AddKeepsExtended(p, q);
    SumEquation(p, q);
  }

  /** With associativity the curve's points satisfy all that the group theorems ask. */
  lemma CurveIsGroup()
    requires Constants() && forall p, q, r :: AssociatesAt(OnCurve, p, q, r)
    ensures Curve(OnCurve)
  {
    hide Add, Constants, Eq;
    assert OnCurve(IDENT);
    forall p, q ensures ClosedAt(OnCurve, p, q) {
      if OnCurve(p) && OnCurve(q) {
        SumOnCurve(p, q);
      }
    }
    forall p ensures ExtendedAt(OnCurve, p) {}
  }

  /** _pt_mul is s-fold addition on the curve, for every s. */
  lemma MultiplesOnCurve(s: nat, p: Point)
    requires Constants() && (forall p, q, r :: AssociatesAt(OnCurve, p, q, r)) && OnCurve(p)
    ensures Same(OnCurve, Mul(s, p), Fold(s, p))
  {
    hide Add, Curve, AssociatesAt, Same, Mul, Fold;
    ConstantsGive();
    CurveIsGroup();
    MulIsFold(OnCurve, s, p);
  }

  /** ed25519_verify accepts every ed25519_sign output: given associativity on the curve,
      L*B = identity for a base point on the curve, and decoding undoing encoding. */
  lemma SignaturesVerifyOnCurve(seed: bytes, msg: bytes)
    requires Constants() && forall p, q, r :: AssociatesAt(OnCurve, p, q, r)
    requires OnCurve(BASE) && Same(OnCurve, Fold(L, BASE), IDENT) && forall p :: DecodesAt(OnCurve, p)
    ensures Verify(PublicKey(seed), msg, Sign(seed, msg))
  {
    hide Add, Curve, AssociatesAt, Same, Mul, Fold, Constants, Compress, Decompress, Verify, PublicKey, Sign;
    ConstantsGive();
    CurveIsGroup();
    SignaturesVerify(OnCurve, seed, msg);
  }
}
