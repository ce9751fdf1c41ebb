/** _pt_compress and _pt_decompress of packaging/run_vectors.py (RFC 8032, sections 5.1.2
    and 5.1.3): each undoes the other, so the accepted encodings are those of the points
    of the curve, one for each. */
module PointCoding {
  import opened Core
  import opened Ed25519
  import opened Residues
  import opened EdwardsCurve

  /** Fermat's little theorem for p. */
  predicate FermatAt(a: int) {
    a % P != 0 ==> PowMod(a, P - 1) == 1
  }

  ghost predicate PrimeFacts() {
    Constants() && forall a: int :: FermatAt(a)
  }

  // ----- congruences -----

  lemma CongEqual(a: int, b: int)
    requires Cong(a, b)
    ensures a % P == b % P
  {
    var k := (a - b) / P;
    assert a == b + k * P;
    SameRemainder(a, b, k, P);
  }

  lemma EqualCong(a: int, b: int)
    requires a % P == b % P
    ensures Cong(a, b)
  {
    ModIsCong(a);
    ModIsCong(b);
    CongSym(a % P, a);
    CongTrans(a, a % P, b);
  }

  /** Reduced numbers that are congruent are equal. */
  lemma ReducedEqual(a: int, b: int)
    requires Cong(a, b) && 0 <= a < P && 0 <= b < P
    ensures a == b
  {
    CongEqual(a, b);
    Small(a, P);
    Small(b, P);
  }

  // ----- powers -----

  lemma PowRange(b: int, e: nat)
    ensures 0 <= PowMod(b, e) < P
  {
  }

  lemma {:induction false} PowBase(a: int, b: int, e: nat)
    requires Cong(a, b)
    ensures PowMod(a, e) == PowMod(b, e)
  {
    hide Cong;
    if e > 0 {
      PowBase(a, b, e - 1);
      CongRefl(PowMod(a, e - 1));
      CongMul(a, b, PowMod(a, e - 1), PowMod(a, e - 1));
      CongEqual(a * PowMod(a, e - 1), b * PowMod(a, e - 1));
    }
  }

  lemma {:induction false} PowSum(b: int, m: nat, n: nat)
    ensures Cong(PowMod(b, m + n), PowMod(b, m) * PowMod(b, n))
  {
    hide Cong;
    if m == 0 {
      CongRefl(PowMod(b, n));
      assert 1 * PowMod(b, n) == PowMod(b, n);
    } else {
      PowSum(b, m - 1, n);
      StepSum(b, PowMod(b, m - 1 + n), PowMod(b, m - 1), PowMod(b, n));
    }
  }

  lemma StepSum(b: int, q: int, w: int, y: int)
    requires Cong(q, w * y)
    ensures Cong(b * q % P, (b * w % P) * y)
  {
    hide Cong;
    ModIsCong(b * q);
    CongRefl(b);
    CongMul(b, b, q, w * y);
    CongTrans(b * q % P, b * q, b * (w * y));
    ModIsCong(b * w);
    CongSym(b * w % P, b * w);
    CongRefl(y);
    CongMul(b * w, b * w % P, y, y);
    assert b * (w * y) == (b * w) * y;
    CongTrans(b * q % P, (b * w) * y, (b * w % P) * y);
  }

  /** Twice the exponent is the square. */
  lemma PowTwice(b: int, n: nat)
    ensures Cong(PowMod(b, 2 * n), PowMod(b, n) * PowMod(b, n))
  {
    PowSum(b, n, n);
  }

  lemma {:induction false} PowOfSquare(x: int, n: nat)
    ensures Cong(PowMod(x * x, n), PowMod(x, 2 * n))
  {
    hide Cong;
    if n == 0 {
      CongRefl(1);
    } else {
      var s, w := x * x, PowMod(x, 2 * (n - 1));
      PowOfSquare(x, n - 1);
      ModIsCong(s * PowMod(s, n - 1));
      CongRefl(s);
      CongMul(s, s, PowMod(s, n - 1), w);
      CongTrans(PowMod(s, n), s * PowMod(s, n - 1), s * w);
      TwoSteps(x, 2 * (n - 1));
      CongSym(PowMod(x, 2 * n), s * w);
      CongTrans(PowMod(s, n), s * w, PowMod(x, 2 * n));
    }
  }

  lemma TwoSteps(x: int, n: nat)
    ensures Cong(PowMod(x, n + 2), (x * x) * PowMod(x, n))
  {
    hide Cong;
    var w := PowMod(x, n);
    ModIsCong(x * w);
    CongRefl(x);
    CongMul(x, x, PowMod(x, n + 1), x * w);
    ModIsCong(x * PowMod(x, n + 1));
    CongTrans(PowMod(x, n + 2), x * PowMod(x, n + 1), x * (x * w));
    assert x * (x * w) == (x * x) * w;
  }

  lemma {:induction false} PowZero(e: nat)
    requires e > 0
    ensures PowMod(0, e) == 0
  {
    assert 0 * PowMod(0, e - 1) == 0;
  }

  lemma {:induction false} PowOne(e: nat)
    ensures PowMod(1, e) == 1
  {
    if e > 0 {
      PowOne(e - 1);
      Small(1, P);
    }
  }

  lemma Inverse(a: int)
    requires PrimeFacts() && a % P != 0
    ensures Cong(a * Inv(a), 1)
  {
    hide PowMod;
    assert FermatAt(a);
    InverseStep(a);
    ModIsCong(a * Inv(a));
    CongSym((a * Inv(a)) % P, a * Inv(a));
  }

  lemma InverseStep(a: int)
    ensures PowMod(a, P - 1) == a * Inv(a) % P
  {
  }

  lemma InverseOfOne()
    ensures Inv(1) == 1
  {
    PowOne(P - 2);
  }

  // ----- the height of a point settles x up to its sign -----

  /** y^2 - x^2 = 1 + d x^2 y^2. */
  predicate Affine(x: int, y: int) {
    Cong(y * y - x * x, 1 + D * ((x * y) * (x * y)))
  }

  lemma AffineSplit(x: int, y: int)
    ensures Affine(x, y) <==> Cong(y * y - 1, (x * x) * (D * y * y + 1))
  {
    var u, v := y * y - x * x - (1 + D * ((x * y) * (x * y))), y * y - 1 - (x * x) * (D * y * y + 1);
    assert D * ((x * y) * (x * y)) == (x * x) * (D * y * y) by { Squared(x, y); }
    assert (x * x) * (D * y * y + 1) == (x * x) * (D * y * y) + x * x;
    assert u == v;
  }

  lemma Squared(x: int, y: int)
    ensures D * ((x * y) * (x * y)) == (x * x) * (D * y * y)
  {
  }

  /** The denominator of the height does not vanish. */
  lemma DenominatorNotZero(y: int)
    requires Constants()
    ensures (D * y * y + 1) % P != 0
  {
    hide Cong;
    if (D * y * y + 1) % P == 0 {
      ConstantsGive();
      CongFrom(D * y * y, -1);
      CongSym(I * I, -1);
      CongTrans(D * y * y, -1, I * I);
      assert D * y * y == D * (y * y);
      assert NotSquareAt(I, y);
      assert y % P == 0;
      ZeroProduct(y, y);
      ZeroProduct(y * y, D);
      CongZero(D * y * y, -1);
      MinusOne();
    }
  }

  lemma MinusOne()
    ensures (-1) % P != 0
  {
  }

  /** Dividing by v is multiplying with its inverse. */
  lemma Divided(n: int, s: int, v: int, i: int)
    requires Cong(v * i, 1)
    ensures Cong(n, s * v) ==> Cong(s, n * i % P)
  {
    hide Cong;
    if Cong(n, s * v) {
      CongRefl(i);
      CongMul(n, s * v, i, i);
      ModIsCong(n * i);
      CongTrans(n * i % P, n * i, (s * v) * i);
      CongRefl(s);
      CongMul(s, s, v * i, 1);
      assert (s * v) * i == s * (v * i);
      CongTrans(n * i % P, s * (v * i), s * 1);
      CongSym(n * i % P, s);
    }
  }

  lemma Multiplied(n: int, s: int, v: int, i: int)
    requires Cong(v * i, 1)
    ensures Cong(s, n * i % P) ==> Cong(n, s * v)
  {
    hide Cong;
    if Cong(s, n * i % P) {
      ModIsCong(n * i);
      CongTrans(s, n * i % P, n * i);
      CongRefl(v);
      CongMul(s, n * i, v, v);
      CongRefl(n);
      CongMul(n, n, v * i, 1);
      assert (n * i) * v == n * (v * i);
      CongTrans(s * v, n * (v * i), n * 1);
      CongSym(s * v, n);
    }
  }

  /** SquareAt(y) is the square of x for every point (x, y), and only for those. */
  lemma SquareIs(x: int, y: int)
    requires PrimeFacts()
    ensures Affine(x, y) <==> Cong(x * x, SquareAt(y))
  {
    hide Cong, Affine;
    var v := D * y * y + 1;
    DenominatorNotZero(y);
    Inverse(v);
    AffineSplit(x, y);
    Divided(y * y - 1, x * x, v, Inv(v));
    Multiplied(y * y - 1, x * x, v, Inv(v));
  }

  // ----- the root -----

  lemma EighthExponent()
    ensures (P + 3) % 8 == 0 && P % 2 == 1 && 4 * ((P + 3) / 8) == (P - 1) / 2 + 2 && 2 * ((P - 1) / 2) == P - 1
    ensures P < TWO_255
  {
    PrimeAndOrder();
  }

  lemma RootRange(xx: int)
    ensures 0 <= RootOf(xx) < P
  {
    PowRange(xx, (P + 3) / 8);
  }

  /** Of a square the root is found. */
  lemma RootFound(x: int, xx: int)
    requires PrimeFacts() && Cong(x * x, xx)
    ensures Cong(RootOf(xx) * RootOf(xx), xx)
  {
    hide Cong, PowMod;
    var k := (P + 3) / 8;
    var r := PowMod(xx, k);
    if x % P == 0 {
      ZeroProduct(x, x);
      CongZero(x * x, xx);
      ZeroRoot(xx, k);
    } else {
      FourthPower(x, xx, k);
      var e := PowMod(x, (P - 1) / 2);
      SignOf(x, e);
      if Cong(e, 1) {
        SignedRoot(r, e, x, xx, 1);
        assert 1 * xx == xx;
        CongIs(r * r, xx);
      } else {
        SignedRoot(r, e, x, xx, -1);
        if (r * r - xx) % P != 0 {
          TurnedRoot(r, xx);
        } else {
          CongFrom(r * r, xx);
        }
      }
    }
  }

  lemma ZeroRoot(xx: int, k: nat)
    requires xx % P == 0 && k == (P + 3) / 8
    ensures Cong(RootOf(xx) * RootOf(xx), xx)
  {
    hide Cong, PowMod;
    EighthExponent();
    EqualCong(xx, 0);
    PowBase(xx, 0, k);
    PowZero(k);
    CongSym(xx, 0);
    CongIs(0, xx);
    assert PowMod(xx, k) == 0;
    assert RootOf(xx) == 0;
  }

  /** The square of the first candidate, r = xx^((p+3)/8), is x^((p-1)/2) x^2. */
  lemma FourthPower(x: int, xx: int, k: nat)
    requires Cong(x * x, xx) && k == (P + 3) / 8
    ensures Cong(PowMod(xx, k) * PowMod(xx, k), PowMod(x, (P - 1) / 2) * (x * x))
  {
    hide Cong, PowMod;
    EighthExponent();
    var r, e := PowMod(xx, k), PowMod(x, (P - 1) / 2);
    PowBase(x * x, xx, k);
    PowOfSquare(x, k);
    CongMul(r, PowMod(x, 2 * k), r, PowMod(x, 2 * k));
    PowTwice(x, 2 * k);
    CongSym(PowMod(x, 4 * k), PowMod(x, 2 * k) * PowMod(x, 2 * k));
    CongTrans(r * r, PowMod(x, 2 * k) * PowMod(x, 2 * k), PowMod(x, 4 * k));
    TwoSteps(x, (P - 1) / 2);
    CongTrans(r * r, PowMod(x, 4 * k), (x * x) * e);
    assert (x * x) * e == e * (x * x);
  }

  /** x^((p-1)/2) is 1 or -1. */
  lemma SignOf(x: int, e: int)
    requires PrimeFacts() && x % P != 0 && e == PowMod(x, (P - 1) / 2)
    ensures Cong(e, 1) || Cong(e, -1)
  {
    hide Cong, PowMod;
    EighthExponent();
    PowTwice(x, (P - 1) / 2);
    assert FermatAt(x);
    CongSym(1, e * e);
    ConstantsGive();
    RootsOf(e, 1);
  }

  /** Equal squares: equal or opposite. */
  lemma RootsOf(a: int, b: int)
    requires Field() && Cong(a * a, b * b)
    ensures Cong(a, b) || Cong(a, -b)
  {
    hide Cong;
    CongIs(a * a, b * b);
    assert (a - b) * (a + b) == a * a - b * b;
    assert Cancels(a - b, a + b);
    if (a - b) % P == 0 {
      CongFrom(a, b);
    } else {
      assert a + b == a - -b;
      CongFrom(a, -b);
    }
  }

  lemma SignedRoot(r: int, e: int, x: int, xx: int, sign: int)
    requires Cong(r * r, e * (x * x)) && Cong(x * x, xx) && Cong(e, sign)
    ensures Cong(r * r, sign * xx)
  {
    hide Cong;
    CongMul(e, sign, x * x, xx);
    CongTrans(r * r, e * (x * x), sign * xx);
  }

  lemma TurnedRoot(r: int, xx: int)
    requires Constants() && Cong(r * r, -1 * xx)
    ensures Cong((r * I % P) * (r * I % P), xx)
  {
    hide Cong;
    ConstantsGive();
    ModIsCong(r * I);
    CongMul(r * I % P, r * I, r * I % P, r * I);
    CongMul(r * r, -1 * xx, I * I, -1);
    assert (r * I) * (r * I) == (r * r) * (I * I) by { Pairs(r, I, r); }
    assert (-1 * xx) * -1 == xx;
    CongTrans((r * I % P) * (r * I % P), (r * I) * (r * I), xx);
  }

  // ----- decoding an encoding, encoding what was decoded -----

  /** The affine point (x, y) as _pt_decompress returns it. */
  function Flat(x: int, y: int): Point {
    Point(x, y, 1, x * y % P)
  }

  lemma OneNotZero()
    ensures 1 % P != 0
  {
  }

  lemma FlatOnCurve(x: int, y: int)
    ensures OnCurve(Flat(x, y)) <==> Affine(x, y)
  {
    hide Cong;
    var t := x * y % P;
    OneNotZero();
    ModIsCong(x * y);
    CongSym(t, x * y);
    assert 1 * t == t;
    CongMul(t, x * y, t, x * y);
    CongRefl(D);
    CongMul(D, D, t * t, (x * y) * (x * y));
    CongRefl(1);
    CongAdd(1, 1, D * (t * t), D * ((x * y) * (x * y)));
    var a, b, c := y * y - x * x, 1 + D * (t * t), 1 + D * ((x * y) * (x * y));
    assert 1 * 1 + D * (t * t) == b;
    CongSym(b, c);
    if Cong(a, b) {
      CongTrans(a, b, c);
    }
    if Cong(a, c) {
      CongTrans(a, c, b);
    }
  }

  /** The coordinates that are encoded. */
  function XOf(p: Point): int {
    p.x * Inv(p.z) % P
  }

  function YOf(p: Point): int {
    p.y * Inv(p.z) % P
  }

  lemma InRange(a: int)
    ensures 0 <= a % P < P
  {
  }

  lemma Scaled(a: int, z: int, i: int)
    requires Cong(z * i, 1)
    ensures Cong((a * i % P) * z, a)
  {
    hide Cong;
    ModIsCong(a * i);
    CongRefl(z);
    CongMul(a * i % P, a * i, z, z);
    CongRefl(a);
    CongMul(a, a, z * i, 1);
    assert (a * i) * z == a * (z * i);
    CongTrans((a * i % P) * z, a * (z * i), a * 1);
  }

  /** A point and the affine point that is encoded for it are equal. */
  lemma FlatEqual(p: Point)
    requires PrimeFacts() && p.z % P != 0
    ensures Eq(Flat(XOf(p), YOf(p)), p)
  {
    hide Cong;
    Inverse(p.z);
    Scaled(p.x, p.z, Inv(p.z));
    Scaled(p.y, p.z, Inv(p.z));
    CongIs(XOf(p) * p.z, p.x);
    CongIs(YOf(p) * p.z, p.y);
    assert p.x * 1 == p.x && p.y * 1 == p.y;
  }

  lemma FlatAffine(p: Point)
    requires PrimeFacts() && OnCurve(p)
    ensures Affine(XOf(p), YOf(p))
  {
    hide Cong;
    var i := Inv(p.z);
    var x, y := XOf(p), YOf(p);
    Inverse(p.z);
    ModIsCong(p.x * i);
    ModIsCong(p.y * i);
    ProductOverZ(p, i);
    SquareOverZ(x, p.x, i);
    SquareOverZ(y, p.y, i);
    EquationOverZ(p, i);
    CongSub(y * y, (p.y * p.y) * (i * i), x * x, (p.x * p.x) * (i * i));
    assert (p.y * p.y) * (i * i) - (p.x * p.x) * (i * i) == (p.y * p.y - p.x * p.x) * (i * i);
    CongTrans(y * y - x * x, (p.y * p.y - p.x * p.x) * (i * i), 1 + D * ((p.t * i) * (p.t * i)));
    CongSym(x * y, p.t * i);
    CongMul(p.t * i, x * y, p.t * i, x * y);
    CongRefl(D);
    CongMul(D, D, (p.t * i) * (p.t * i), (x * y) * (x * y));
    CongRefl(1);
    CongAdd(1, 1, D * ((p.t * i) * (p.t * i)), D * ((x * y) * (x * y)));
    CongTrans(y * y - x * x, 1 + D * ((p.t * i) * (p.t * i)), 1 + D * ((x * y) * (x * y)));
  }

  lemma SquareOverZ(x: int, a: int, i: int)
    requires Cong(x, a * i)
    ensures Cong(x * x, (a * a) * (i * i))
  {
    hide Cong;
    CongMul(x, a * i, x, a * i);
    Pairs(a, i, a);
  }

  /** x y = T / Z. */
  lemma ProductOverZ(p: Point, i: int)
    requires Cong(p.z * i, 1) && Cong(p.x * p.y, p.z * p.t)
    ensures Cong((p.x * i % P) * (p.y * i % P), p.t * i)
  {
    hide Cong;
    ModIsCong(p.x * i);
    ModIsCong(p.y * i);
    CongMul(p.x * i % P, p.x * i, p.y * i % P, p.y * i);
    Pairs(p.x, i, p.y);
    CongRefl(i * i);
    CongMul(p.x * p.y, p.z * p.t, i * i, i * i);
    CongTrans((p.x * i % P) * (p.y * i % P), (p.x * p.y) * (i * i), (p.z * p.t) * (i * i));
    CongRefl(p.t * i);
    CongMul(p.z * i, 1, p.t * i, p.t * i);
    Pairs(p.z, i, p.t);
    CongTrans((p.x * i % P) * (p.y * i % P), (p.z * i) * (p.t * i), 1 * (p.t * i));
  }

  lemma EquationOverZ(p: Point, i: int)
    requires Cong(p.z * i, 1) && Cong(p.y * p.y - p.x * p.x, p.z * p.z + D * (p.t * p.t))
    ensures Cong((p.y * p.y - p.x * p.x) * (i * i), 1 + D * ((p.t * i) * (p.t * i)))
  {
    hide Cong;
    CongRefl(i * i);
    CongMul(p.y * p.y - p.x * p.x, p.z * p.z + D * (p.t * p.t), i * i, i * i);
    CongMul(p.z * i, 1, p.z * i, 1);
    CongRefl(D * ((p.t * i) * (p.t * i)));
    CongAdd((p.z * i) * (p.z * i), 1, D * ((p.t * i) * (p.t * i)), D * ((p.t * i) * (p.t * i)));
    Distributed(p.z, p.t, i);
    CongTrans((p.y * p.y - p.x * p.x) * (i * i), (p.z * i) * (p.z * i) + D * ((p.t * i) * (p.t * i)),
      1 + D * ((p.t * i) * (p.t * i)));
  }

  lemma Distributed(z: int, t: int, i: int)
    ensures (z * z + D * (t * t)) * (i * i) == (z * i) * (z * i) + D * ((t * i) * (t * i))
  {
    Pairs(z, i, z);
    Pairs(t, i, t);
    assert (D * (t * t)) * (i * i) == D * ((t * t) * (i * i));
  }

  lemma {:induction false} LittleBack(s: bytes)
    ensures ToLittle(FromLittle(s), |s|) == s && FromLittle(s) < Pow256(|s|)
  {
    if s != [] {
      LittleBack(s[1..]);
      assert FromLittle(s) % 256 == s[0] && FromLittle(s) / 256 == FromLittle(s[1..]);
      assert s == [s[0]] + s[1..];
    }
  }

  /** 2^255 and what fits in 32 bytes. */
  lemma Halves()
    ensures Pow256(32) == 2 * TWO_255
  {
    hide Pow256;
    Powers();
  }

  lemma TopBit(y: int, bit: int)
    requires 0 <= y < TWO_255 && 0 <= bit < 2
    ensures (y + bit * TWO_255) / TWO_255 == bit && (y + bit * TWO_255) % TWO_255 == y
  {
  }

  /** The root of the right parity. */
  function Chosen(r: int, sign: int): int {
    if r % 2 != sign then P - r else r
  }

  lemma ChosenIs(r: int, x: int)
    requires Field() && 0 <= r < P && 0 <= x < P && Cong(r * r, x * x)
    ensures Chosen(r, x % 2) == x && (r == 0 <==> x == 0)
  {
    hide Cong;
    RootsOf(r, x);
    if Cong(r, x) {
      ReducedEqual(r, x);
    } else {
      Opposite(r, x);
      if x != 0 {
        EvenSum(r, x);
      }
    }
  }

  lemma Opposite(r: int, x: int)
    requires 0 <= r < P && 0 <= x < P && Cong(r, -x)
    ensures (r == 0 && x == 0) || (r + x == P && r != 0 && x != 0)
    ensures P % 2 == 1
  {
    hide Cong;
    EighthExponent();
    if x == 0 {
      ReducedEqual(r, 0);
    } else {
      CongFromShift(r, x);
      ReducedEqual(r, P - x);
    }
  }

  lemma CongFromShift(r: int, x: int)
    requires Cong(r, -x)
    ensures Cong(r, P - x)
  {
    hide Cong;
    assert P % P == 0;
    assert P - 0 == P;
    CongFrom(P, 0);
    CongRefl(-x);
    CongAdd(P, 0, -x, -x);
    CongSym(P + -x, 0 + -x);
    CongTrans(r, -x, P + -x);
  }

  lemma ChosenAgain(r: int, sign: int)
    requires 0 <= r < P && 0 <= sign < 2 && (r == 0 ==> sign == 0)
    ensures 0 <= Chosen(r, sign) < P && Chosen(r, sign) % 2 == sign && Cong(Chosen(r, sign) * Chosen(r, sign), r * r)
  {
    hide Cong;
    if r % 2 != sign {
      NegativeSquare(r);
      OddPrime();
      EvenSum(r, P - r);
    } else {
      CongRefl(r * r);
    }
  }

  lemma OddPrime()
    ensures P % 2 == 1
  {
    EighthExponent();
  }

  lemma NegativeSquare(r: int)
    ensures Cong((P - r) * (P - r), r * r)
  {
    hide Cong;
    CongRefl(-r);
    CongFromShift(-r, r);
    CongSym(-r, P - r);
    CongMul(P - r, -r, P - r, -r);
    assert -r * -r == r * r;
  }

  /** Decoding the encoding of a point of the curve gives the point. */
  lemma EncodingDecodes(p: Point)
    requires PrimeFacts() && OnCurve(p)
    ensures Decompress(Compress(p)) == Some(Flat(XOf(p), YOf(p)))
    ensures Eq(Flat(XOf(p), YOf(p)), p) && OnCurve(Flat(XOf(p), YOf(p)))
  {
    hide Cong, OnCurve, Eq, Affine, SquareAt, RootOf, FromLittle, ToLittle, Pow256, Inv, Constants;
    var x, y := XOf(p), YOf(p);
    assert p.z % P != 0 by { ZNotZero(p); }
    FlatEqual(p);
    FlatAffine(p);
    FlatOnCurve(x, y);
    InRange(p.x * Inv(p.z));
    InRange(p.y * Inv(p.z));
    EighthExponent();
    var n := y + x % 2 * TWO_255;
    Halves();
    LittleRoundTrip(n, 32);
    TopBit(y, x % 2);
    var xx := SquareAt(y);
    SquareIs(x, y);
    RootFound(x, xx);
    RootRange(xx);
    CongIs(RootOf(xx) * RootOf(xx), xx);
    CongSym(x * x, xx);
    CongTrans(RootOf(xx) * RootOf(xx), xx, x * x);
    ChosenIs(RootOf(xx), x) by { ConstantsGive(); }
  }

  lemma ZNotZero(p: Point)
    requires OnCurve(p)
    ensures p.z % P != 0
  {
  }

  /** What is decoded is a point of the curve, and its encoding is what was decoded. */
  lemma DecodingEncodes(s: bytes)
    requires PrimeFacts() && Decompress(s).Some?
    ensures OnCurve(Decompress(s).value) && Compress(Decompress(s).value) == s
  {
    hide Cong, OnCurve, Eq, Affine, SquareAt, RootOf, FromLittle, ToLittle, Pow256, Inv, Constants;
    var n := FromLittle(s);
    var sign, y := n / TWO_255, n % TWO_255;
    Halves();
    LittleBack(s);
    var xx := SquareAt(y);
    var r := RootOf(xx);
    RootRange(xx);
    ChosenAgain(r, sign);
    var x := Chosen(r, sign);
    CongFrom(r * r, xx);
    CongTrans(x * x, r * r, xx);
    SquareIs(x, y);
    FlatOnCurve(x, y);
    assert Decompress(s) == Some(Flat(x, y));
    InverseOfOne();
    Small(x, P);
    Small(y, P);
    assert x * 1 == x && y * 1 == y;
    assert n == y + sign * TWO_255;
  }

  /** The bytes that are accepted as a point are the encodings of the points of the
      curve; two points have the same one exactly when they are equal. */
  lemma EncodingsExactly(s: bytes)
    requires PrimeFacts()
    ensures Decompress(s).Some? <==> exists p :: OnCurve(p) && Compress(p) == s
  {
    hide OnCurve, Compress, Decompress;
    if Decompress(s).Some? {
      DecodingEncodes(s);
    }
    if p :| OnCurve(p) && Compress(p) == s {
      EncodingDecodes(p);
    }
  }

  lemma EncodedAlike(p: Point, q: Point)
    requires PrimeFacts() && OnCurve(p) && OnCurve(q)
    ensures Compress(p) == Compress(q) <==> Eq(p, q)
  {
    hide OnCurve, Decompress, Inv, ToLittle, Eq;
    ConstantsGive();
    ZNotZero(p);
    ZNotZero(q);
    EncodingDecodes(p);
    EncodingDecodes(q);
    var f, g := Flat(XOf(p), YOf(p)), Flat(XOf(q), YOf(q));
    EqSymmetric(f, p);
    EqSymmetric(g, q);
    ZNotZero(f);
    if Compress(p) == Compress(q) {
      EqTransitive(p, f, q);
    }
    if Eq(p, q) {
      EqTransitive(f, p, q);
      EqTransitive(f, q, g);
      InRange(p.x * Inv(p.z));
      InRange(p.y * Inv(p.z));
      InRange(q.x * Inv(q.z));
      InRange(q.y * Inv(q.z));
      FlatOnce(XOf(p), YOf(p), XOf(q), YOf(q));
    }
  }

  lemma FlatOnce(x: int, y: int, x': int, y': int)
    requires 0 <= x < P && 0 <= y < P && 0 <= x' < P && 0 <= y' < P && Eq(Flat(x, y), Flat(x', y'))
    ensures x == x' && y == y'
  {
    CongFrom(x * 1, x' * 1);
    CongFrom(y * 1, y' * 1);
    ReducedEqual(x, x');
    ReducedEqual(y, y');
  }

  // ----- the base point, signatures -----

  /** 4/5 is the y of a point. */
  predicate BaseHeight() {
    Cong(RootOf(SquareAt(BASE_Y)) * RootOf(SquareAt(BASE_Y)), SquareAt(BASE_Y))
  }

  /** _D is -121665/121666, _B the point with y = 4/5 and even x. */
  lemma BaseIs()
    requires PrimeFacts() && BaseHeight()
    ensures Cong(121666 * D, -121665) && Cong(5 * BASE.y, 4)
    ensures OnCurve(BASE) && BASE.x % 2 == 0 && 0 <= BASE.x < P && 0 <= BASE.y < P && BASE.z == 1
  {
    hide Cong, OnCurve, Affine, SquareAt, RootOf, Inv, Constants;
    Quotient(-121665, 121666);
    Quotient(4, 5);
    InRange(4 * Inv(5));
    var r := RootOf(SquareAt(BASE_Y));
    RootRange(SquareAt(BASE_Y));
    ChosenAgain(r, 0);
    assert BASE_X == Chosen(r, 0);
    CongTrans(BASE_X * BASE_X, r * r, SquareAt(BASE_Y));
    SquareIs(BASE_X, BASE_Y);
    FlatOnCurve(BASE_X, BASE_Y);
  }

  lemma Quotient(a: int, b: int)
    requires PrimeFacts() && 0 < b < 1000000
    ensures Cong(b * (a * Inv(b) % P), a)
  {
    hide Cong, Inv;
    PrimeAndOrder();
    Small(b, P);
    Inverse(b);
    Scaled(a, b, Inv(b));
    assert (a * Inv(b) % P) * b == b * (a * Inv(b) % P);
  }

  /** ed25519_verify accepts every ed25519_sign output: the number facts about p and d,
      a base point of order dividing L, and associativity are the hypotheses. */
  lemma SignaturesVerify(seed: bytes, msg: bytes)
    requires PrimeFacts() && BaseHeight() && (forall p, q, r :: AssociatesAt(OnCurve, p, q, r))
    requires Same(OnCurve, Fold(L, BASE), IDENT)
    ensures Verify(PublicKey(seed), msg, Sign(seed, msg))
  {
    hide OnCurve, Verify, Sign, PublicKey, Compress, Decompress, Add, Eq, Fold;
    BaseIs();
    forall p ensures DecodesAt(OnCurve, p) {
      if OnCurve(p) {
        EncodingDecodes(p);
      }
    }
    SignaturesVerifyOnCurve(seed, msg);
  }

  // ----- RFC 8032, sections 5.1.5 to 5.1.7 -----

  /** The secret scalar is the low half of the hash with the lowest three bits of the
      first byte and the highest of the last cleared, the second highest of the last set. */
  lemma ScalarIs(h: Digest512)
    ensures SecretScalar(h) == FromLittle([h[0] - h[0] % 8] + h[1..31] + [h[31] % 64 + 64])
  {
    hide FromLittle;
    var mid := h[1..31];
    assert h[..32] == [h[0]] + mid + [h[31]];
    ThirtyTwo(h[0], mid, h[31]);
    ThirtyTwo(h[0] - h[0] % 8, mid, h[31] % 64 + 64);
    Clamped(FromLittle(h[..32]), h[0], FromLittle(mid), h[31]);
  }

  lemma ThirtyTwo(low: byte, mid: bytes, top: byte)
    requires |mid| == 30
    ensures FromLittle([low] + mid + [top]) == low + 256 * FromLittle(mid) + TWO_248 * top
    ensures 256 * FromLittle(mid) + 256 <= TWO_248
  {
    hide FromLittle, Pow256;
    Bracketed([low], mid, top);
    OneDigit(low);
    LittleBack(mid);
    assert Pow256(31) == TWO_248 && Pow256(31) == 256 * Pow256(30) && Pow256(1) == 256 by { Powers(); }
  }

  const TWO_248: int := 0x1_000000_00000000_00000000_00000000_00000000_00000000_00000000_00000000
  const TWO_245: int := 0x200000_00000000_00000000_00000000_00000000_00000000_00000000_00000000

  lemma Clamped(a: int, low: byte, mid: nat, top: byte)
    requires 256 * mid + 256 <= TWO_248 && a == low + 256 * mid + TWO_248 * top
    ensures a % TWO_254 == low + 256 * mid + TWO_248 * (top % 64) && a % 8 == low % 8
  {
    HighBits(low + 256 * mid, top);
    LowBits(low, 32 * mid + TWO_245 * top);
  }

  lemma HighBits(rest: int, top: byte)
    requires 0 <= rest < TWO_248
    ensures (rest + TWO_248 * top) % TWO_254 == rest + TWO_248 * (top % 64)
  {
    Digit(rest + TWO_248 * (top % 64), top / 64, TWO_254);
  }

  lemma LowBits(low: byte, high: int)
    ensures (low + 8 * high) % 8 == low % 8
  {
    SameRemainder(low + 8 * high, low, high, 8);
  }

  /** s is the encoding of the affine point (x, y): y in 255 bits, then the parity of x. */
  predicate Encodes(x: int, y: int, s: bytes) {
    0 <= x < P && 0 <= y < P && Affine(x, y) && |s| == 32 && FromLittle(s) == y + x % 2 * TWO_255
  }

  lemma EncodesIs(x: int, y: int, s: bytes)
    requires PrimeFacts()
    ensures Encodes(x, y, s) <==> Decompress(s) == Some(Flat(x, y)) && 0 <= x < P && 0 <= y < P
  {
    hide Cong, OnCurve, Affine, Decompress, FromLittle, ToLittle, Pow256, Inv, PrimeFacts;
    var p := Flat(x, y);
    FlatOnCurve(x, y);
    InverseOfOne();
    assert x * 1 == x && y * 1 == y;
    EighthExponent();
    Halves();
    if 0 <= x < P && 0 <= y < P {
      Small(x, P);
      Small(y, P);
      assert XOf(p) == x && YOf(p) == y;
      LittleRoundTrip(y + x % 2 * TWO_255, 32);
    }
    if Encodes(x, y, s) {
      LittleBack(s);
      EncodingDecodes(p);
    }
    if Decompress(s) == Some(p) {
      DecodingEncodes(s);
    }
  }

  /** A point and a scalar of a signature: R = (u, v), A = (x, y), S B = R + k A. */
  predicate Satisfies(x: int, y: int, u: int, v: int, pub: bytes, msg: bytes, sig: bytes)
    requires |sig| == 64
  {
    var s, k := FromLittle(sig[32..]), FromLittle(SHA512(sig[..32] + pub + msg)) % L;
    Encodes(x, y, pub) && Encodes(u, v, sig[..32]) && s < L && Eq(Mul(s, BASE), Add(Flat(u, v), Mul(k, Flat(x, y))))
  }

  /** What ed25519_verify accepts. */
  lemma VerifyExactly(pub: bytes, msg: bytes, sig: bytes)
    requires PrimeFacts()
    ensures Verify(pub, msg, sig) <==> |sig| == 64 && exists x, y, u, v :: Satisfies(x, y, u, v, pub, msg, sig)
  {
    hide Decompress, Encodes, Eq, Add, Mul, FromLittle, PrimeFacts;
    if Verify(pub, msg, sig) {
      var x, y := DecodedFlat(pub);
      var u, v := DecodedFlat(sig[..32]);
      EncodesIs(x, y, pub);
      EncodesIs(u, v, sig[..32]);
      assert Satisfies(x, y, u, v, pub, msg, sig);
    }
    if |sig| == 64 && exists x, y, u, v :: Satisfies(x, y, u, v, pub, msg, sig) {
      var x, y, u, v :| Satisfies(x, y, u, v, pub, msg, sig);
      EncodesIs(x, y, pub);
      EncodesIs(u, v, sig[..32]);
    }
  }

  lemma DecodedFlat(s: bytes) returns (x: int, y: int)
    requires Decompress(s).Some?
    ensures Decompress(s) == Some(Flat(x, y)) && 0 <= x < P && 0 <= y < P
  {
    hide SquareAt, RootOf, FromLittle;
    var n := FromLittle(s);
    y := n % TWO_255;
    RootRange(SquareAt(y));
    x := Chosen(RootOf(SquareAt(y)), n / TWO_255);
  }

  lemma SignParts(seed: bytes, msg: bytes, a: nat, r: nat)
    requires a == SecretScalar(SHA512(seed)) && r == FromLittle(SHA512(SHA512(seed)[32..] + msg)) % L
    ensures var sig := Sign(seed, msg);
            && |sig| == 64 && PublicKey(seed) == Compress(Mul(a, BASE)) && sig[..32] == Compress(Mul(r, BASE))
            && FromLittle(sig[32..]) == (r + Challenge(sig[..32], PublicKey(seed), msg) * a) % L
  {
    hide Compress, Mul, FromLittle, ToLittle, SecretScalar, Pow256, Challenge, PublicKey;
    var rp := Compress(Mul(r, BASE));
    var n := r + Challenge(rp, PublicKey(seed), msg) * a;
    LittleBelow(n);
    var sig := Sign(seed, msg);
    assert PublicKey(seed) == Compress(Mul(a, BASE)) && sig == rp + ToLittle(n % L, 32) by { SignIs(seed, msg); }
    assert sig[..32] == rp && sig[32..] == ToLittle(n % L, 32);
  }

  lemma LittleBelow(n: nat)
    ensures FromLittle(ToLittle(n % L, 32)) == n % L
  {
    hide FromLittle, ToLittle, Pow256;
    PrimeAndOrder();
    LittleRoundTrip(n % L, 32);
  }

  lemma SignIs(seed: bytes, msg: bytes)
    ensures var a, r := SecretScalar(SHA512(seed)), FromLittle(SHA512(SHA512(seed)[32..] + msg)) % L;
            var rp := Compress(Mul(r, BASE));
            && PublicKey(seed) == Compress(Mul(a, BASE))
            && Sign(seed, msg) == rp + ToLittle((r + Challenge(rp, PublicKey(seed), msg) * a) % L, 32)
  {
    hide Compress, Mul, FromLittle, ToLittle, SecretScalar, Challenge;
  }

  /** What ed25519_sign returns: the encoding of r B and S = r + k a modulo L. */
  lemma SignExactly(seed: bytes, msg: bytes)
    ensures var h, sig := SHA512(seed), Sign(seed, msg);
            var a := FromLittle([h[0] - h[0] % 8] + h[1..31] + [h[31] % 64 + 64]);
            var r := FromLittle(SHA512(h[32..] + msg)) % L;
            && |sig| == 64 && PublicKey(seed) == Compress(Mul(a, BASE)) && sig[..32] == Compress(Mul(r, BASE))
            && FromLittle(sig[32..]) == (r + FromLittle(SHA512(sig[..32] + PublicKey(seed) + msg)) % L * a) % L
  {
    hide Compress, Mul, FromLittle, ToLittle, SecretScalar, Pow256, Sign, PublicKey;
    var h := SHA512(seed);
    ScalarIs(h);
    SignParts(seed, msg, SecretScalar(h), FromLittle(SHA512(h[32..] + msg)) % L);
  }
}
