/** The pure-Python Ed25519 of packaging/run_vectors.py (RFC 8032): what its point
    arithmetic satisfies by algebra alone, and what follows for signing and verifying
    from the group law, stated as a hypothesis. */
module Ed25519 {
  import opened Core
  import Numbers

  type Modulus = n: int | n > 100 witness 101

  /** 2^255 - 19, from its 32 little-endian bytes (PrimeAndOrder gives the number). */
  const P: Modulus := FromLittle([0xed] + Repeat(0xff, 30) + [0x7f])

  /** The order of the base point, likewise. */
  const L: Modulus := FromLittle(ORDER_LOW + Repeat(0, 15) + [0x10])

  const ORDER_LOW: bytes := [
    0xed, 0xd3, 0xf5, 0x5c, 0x1a, 0x63, 0x12, 0x58, 0xd6, 0x9c, 0xf7, 0xa2, 0xde, 0xf9, 0xde, 0x14]

  function Repeat(d: byte, k: nat): (b: bytes)
    ensures |b| == k
  {
    if k == 0 then [] else [d] + Repeat(d, k - 1)
  }

  // ----- arithmetic modulo P -----

  predicate Cong(a: int, b: int) {
    (a - b) % P == 0
  }

  lemma ModIsCong(a: int)
    ensures Cong(a % P, a)
  {
    RemainderIsCong(a, P);
  }

  lemma RemainderIsCong(a: int, m: int)
    requires m > 0
    ensures (a % m - a) % m == 0
  {
    Numbers.MultipleDivides(-(a / m), m);
    assert a % m - a == -(a / m) * m;
  }

  lemma CongRefl(a: int)
    ensures Cong(a, a)
  {
  }

  lemma CongSym(a: int, b: int)
    requires Cong(a, b)
    ensures Cong(b, a)
  {
    MinusMultiple(a - b, P);
    assert -(a - b) == b - a;
  }

  lemma MinusMultiple(x: int, m: int)
    requires m > 0 && x % m == 0
    ensures (-x) % m == 0
  {
    Numbers.MultipleDivides(-(x / m), m);
    assert x == (x / m) * m;
    assert -x == -(x / m) * m;
  }

  lemma SumMultiple(x: int, y: int, m: int)
    requires m > 0 && x % m == 0 && y % m == 0
    ensures (x + y) % m == 0
  {
    var k := x / m + y / m;
    Numbers.MultipleDivides(k, m);
    assert x + y == k * m;
  }

  lemma ProductMultiple(x: int, y: int, m: int)
    requires m > 0 && x % m == 0
    ensures (x * y) % m == 0
  {
    var k := x / m * y;
    Numbers.MultipleDivides(k, m);
    assert x == (x / m) * m;
    assert x * y == ((x / m) * m) * y == k * m;
  }

  lemma CongTrans(a: int, b: int, c: int)
    requires Cong(a, b) && Cong(b, c)
    ensures Cong(a, c)
  {
    SumMultiple(a - b, b - c, P);
    assert (a - b) + (b - c) == a - c;
  }

  lemma CongAdd(a: int, b: int, c: int, d: int)
    requires Cong(a, b) && Cong(c, d)
    ensures Cong(a + c, b + d)
  {
    SumMultiple(a - b, c - d, P);
    assert (a - b) + (c - d) == (a + c) - (b + d);
  }

  lemma CongSub(a: int, b: int, c: int, d: int)
    requires Cong(a, b) && Cong(c, d)
    ensures Cong(a - c, b - d)
  {
    CongSym(c, d);
    SumMultiple(a - b, d - c, P);
    assert (a - b) + (d - c) == (a - c) - (b - d);
  }

  lemma CongMul(a: int, b: int, c: int, d: int)
    requires Cong(a, b) && Cong(c, d)
    ensures Cong(a * c, b * d)
  {
    ProductMultiple(a - b, c, P);
    ProductMultiple(c - d, b, P);
    SumMultiple((a - b) * c, (c - d) * b, P);
    assert (a - b) * c + (c - d) * b == a * c - b * d;
  }

  // ----- points -----

  /** Extended homogeneous coordinates. */
  datatype Point = Point(x: int, y: int, z: int, t: int)

  const IDENT: Point := Point(0, 1, 1, 0)

  /** pow(b, e, P). */
  function PowMod(b: int, e: nat): int {
    if e == 0 then 1 else b * PowMod(b, e - 1) % P
  }

  function Inv(x: int): int {
    PowMod(x, P - 2)
  }

  const D: int := (-121665 * Inv(121666)) % P
  const I: int := PowMod(2, (P - 1) / 4)

  /** _pt_add. */
  function Add(p: Point, q: Point): Point {
    var a := (p.y - p.x) * (q.y - q.x) % P;
    var b := (p.y + p.x) * (q.y + q.x) % P;
    var c := p.t * 2 * D * q.t % P;
    var d := p.z * 2 * q.z % P;
    var e, f, g, h := b - a, d - c, d + c, b + a;
    Point(e * f % P, g * h % P, f * g % P, e * h % P)
  }

  /** _pt_eq. */
  predicate Eq(p: Point, q: Point) {
    (p.x * q.z - q.x * p.z) % P == 0 && (p.y * q.z - q.y * p.z) % P == 0
  }

  lemma AddCommutes(p: Point, q: Point)
    ensures Add(p, q) == Add(q, p)
  {
    assert (p.y - p.x) * (q.y - q.x) == (q.y - q.x) * (p.y - p.x);
    assert (p.y + p.x) * (q.y + q.x) == (q.y + q.x) * (p.y + p.x);
    assert p.t * 2 * D * q.t == q.t * 2 * D * p.t;
    assert p.z * 2 * q.z == q.z * 2 * p.z;
  }

  // The four factors of the sum, before reduction.

  function E(p: Point, q: Point): int {
    (p.y + p.x) * (q.y + q.x) - (p.y - p.x) * (q.y - q.x)
  }

  function F(p: Point, q: Point): int {
    p.z * 2 * q.z - p.t * 2 * D * q.t
  }

  function G(p: Point, q: Point): int {
    p.z * 2 * q.z + p.t * 2 * D * q.t
  }

  function H(p: Point, q: Point): int {
    (p.y + p.x) * (q.y + q.x) + (p.y - p.x) * (q.y - q.x)
  }

  lemma AddFactors(p: Point, q: Point)
    ensures var r := Add(p, q);
            Cong(r.x, E(p, q) * F(p, q)) && Cong(r.y, G(p, q) * H(p, q))
            && Cong(r.z, F(p, q) * G(p, q)) && Cong(r.t, E(p, q) * H(p, q))
  {
    hide Cong;
    var a0, b0 := (p.y - p.x) * (q.y - q.x), (p.y + p.x) * (q.y + q.x);
    var c0, d0 := p.t * 2 * D * q.t, p.z * 2 * q.z;
    ModIsCong(a0);
    ModIsCong(b0);
    ModIsCong(c0);
    ModIsCong(d0);
    var a, b, c, d := a0 % P, b0 % P, c0 % P, d0 % P;
    CongSub(b, b0, a, a0);
    CongSub(d, d0, c, c0);
    CongAdd(d, d0, c, c0);
    CongAdd(b, b0, a, a0);
    ReducedProduct(b - a, b0 - a0, d - c, d0 - c0);
    ReducedProduct(d + c, d0 + c0, b + a, b0 + a0);
    ReducedProduct(d - c, d0 - c0, d + c, d0 + c0);
    ReducedProduct(b - a, b0 - a0, b + a, b0 + a0);
  }

  lemma ReducedProduct(e: int, e0: int, f: int, f0: int)
    requires Cong(e, e0) && Cong(f, f0)
    ensures Cong(e * f % P, e0 * f0)
  {
    hide Cong;
    CongMul(e, e0, f, f0);
    ModIsCong(e * f);
    CongTrans(e * f % P, e * f, e0 * f0);
  }

  /** Every sum satisfies X * Y = Z * T. */
  lemma AddKeepsExtended(p: Point, q: Point)
    ensures Cong(Add(p, q).x * Add(p, q).y, Add(p, q).z * Add(p, q).t)
  {
    hide Cong, E, F, G, H, Add;
    AddFactors(p, q);
    var r := Add(p, q);
    var e, f, g, h := E(p, q), F(p, q), G(p, q), H(p, q);
    CongMul(r.x, e * f, r.y, g * h);
    CongMul(r.z, f * g, r.t, e * h);
    assert (e * f) * (g * h) == (f * g) * (e * h) by { FourFactors(e, f, g, h); }
    CongSym(r.z * r.t, (f * g) * (e * h));
    CongTrans(r.x * r.y, (e * f) * (g * h), r.z * r.t);
  }

  lemma FourFactors(e: int, f: int, g: int, h: int)
    ensures (e * f) * (g * h) == (f * g) * (e * h)
  {
  }

  /** The identity is neutral, up to _pt_eq. */
  lemma IdentNeutral(p: Point)
    ensures Eq(Add(p, IDENT), p) && Eq(p, Add(p, IDENT))
  {
    hide Cong, Add;
    AddFactors(p, IDENT);
    var r := Add(p, IDENT);
    IdentFactors(p);
    ScaledEq(r.x, p.x, r.z, p.z, 4 * p.z);
    ScaledEq(r.y, p.y, r.z, p.z, 4 * p.z);
    CongIs(r.x * p.z, p.x * r.z);
    CongIs(r.y * p.z, p.y * r.z);
    CongSym(r.x * p.z, p.x * r.z);
    CongSym(r.y * p.z, p.y * r.z);
    CongIs(p.x * r.z, r.x * p.z);
    CongIs(p.y * r.z, r.y * p.z);
  }

  lemma CongIs(a: int, b: int)
    requires Cong(a, b)
    ensures (a - b) % P == 0
  {
  }

  lemma IdentFactors(p: Point)
    ensures E(p, IDENT) * F(p, IDENT) == p.x * (4 * p.z) && G(p, IDENT) * H(p, IDENT) == p.y * (4 * p.z)
    ensures F(p, IDENT) * G(p, IDENT) == p.z * (4 * p.z)
  {
    assert p.t * 2 * D * 0 == 0;
    assert E(p, IDENT) == 2 * p.x && F(p, IDENT) == 2 * p.z && G(p, IDENT) == 2 * p.z && H(p, IDENT) == 2 * p.y;
  }

  lemma ScaledEq(rx: int, x: int, rz: int, z: int, k: int)
    requires Cong(rx, x * k) && Cong(rz, z * k)
    ensures Cong(rx * z, x * rz)
  {
    hide Cong;
    CongRefl(z);
    CongRefl(x);
    CongMul(rx, x * k, z, z);
    CongMul(x, x, rz, z * k);
    assert (x * k) * z == x * (z * k);
    CongSym(x * rz, x * (z * k));
    CongTrans(rx * z, (x * k) * z, x * rz);
  }

  // ----- what the group law adds -----

  /** P has no zero divisors. */
  predicate Cancels(a: int, b: int) {
    (a * b) % P == 0 ==> a % P == 0 || b % P == 0
  }

  ghost predicate Field() {
    forall a: int, b: int :: Cancels(a, b)
  }

  predicate ExtendedAt(on: Point -> bool, p: Point) {
    on(p) ==> p.z % P != 0 && Cong(p.x * p.y, p.z * p.t)
  }

  predicate ClosedAt(on: Point -> bool, p: Point, q: Point) {
    on(p) && on(q) ==> on(Add(p, q))
  }

  predicate AssociatesAt(on: Point -> bool, p: Point, q: Point, r: Point) {
    on(p) && on(q) && on(r) ==> Eq(Add(Add(p, q), r), Add(p, Add(q, r)))
  }

  /** The curve's points: the identity among them, never at Z = 0, with XY = ZT, closed
      under addition, which is associative up to _pt_eq. */
  ghost predicate Curve(on: Point -> bool) {
    && on(IDENT)
    && (forall p :: ExtendedAt(on, p))
    && (forall p, q :: ClosedAt(on, p, q))
    && (forall p, q, r :: AssociatesAt(on, p, q, r))
  }

  lemma CancelFactor(a: int, b: int, k: int)
    requires Field() && k % P != 0 && Cong(a * k, b * k)
    ensures Cong(a, b)
  {
    assert a * k - b * k == (a - b) * k;
    assert Cancels(a - b, k);
  }

  lemma NonZeroProduct(a: int, b: int)
    requires Field() && a % P != 0 && b % P != 0
    ensures (a * b) % P != 0
  {
    assert Cancels(a, b);
  }

  /** _pt_eq is transitive away from Z = 0. */
  lemma EqTransitive(p: Point, q: Point, r: Point)
    requires Field() && q.z % P != 0 && Eq(p, q) && Eq(q, r)
    ensures Eq(p, r)
  {
    hide Cong, Cancels;
    RatioTransitive(p.x, p.z, q.x, q.z, r.x, r.z);
    RatioTransitive(p.y, p.z, q.y, q.z, r.y, r.z);
  }

  lemma RatioTransitive(a: int, za: int, b: int, zb: int, c: int, zc: int)
    requires Field() && zb % P != 0 && (a * zb - b * za) % P == 0 && (b * zc - c * zb) % P == 0
    ensures (a * zc - c * za) % P == 0
  {
    hide Cancels;
    CongRefl(zc);
    CongRefl(za);
    CongMul(a * zb, b * za, zc, zc);
    CongMul(b * zc, c * zb, za, za);
    Reorder(a, zb, zc);
    Reorder(b, za, zc);
    Reorder(c, zb, za);
    CongTrans((a * zc) * zb, (b * zc) * za, (c * za) * zb);
    CancelFactor(a * zc, c * za, zb);
  }

  lemma Reorder(a: int, b: int, c: int)
    ensures (a * b) * c == (a * c) * b
  {
  }

  lemma EqSymmetric(p: Point, q: Point)
    requires Eq(p, q)
    ensures Eq(q, p)
  {
    hide Cong;
    CongFrom(p.x * q.z, q.x * p.z);
    CongFrom(p.y * q.z, q.y * p.z);
    CongSym(p.x * q.z, q.x * p.z);
    CongSym(p.y * q.z, q.y * p.z);
    CongIs(q.x * p.z, p.x * q.z);
    CongIs(q.y * p.z, p.y * q.z);
  }

  lemma CongFrom(a: int, b: int)
    requires (a - b) % P == 0
    ensures Cong(a, b)
  {
  }

  /** Equal points have equal T/Z. */
  lemma EqualT(p: Point, q: Point)
    requires Field() && Eq(p, q) && p.z % P != 0 && q.z % P != 0
    requires Cong(p.x * p.y, p.z * p.t) && Cong(q.x * q.y, q.z * q.t)
    ensures Cong(p.t * q.z, q.t * p.z)
  {
    hide Cong, Cancels;
    CongFrom(p.x * q.z, q.x * p.z);
    CongFrom(p.y * q.z, q.y * p.z);
    CongMul(p.x * q.z, q.x * p.z, p.y * q.z, q.y * p.z);
    CongRefl(q.z * q.z);
    CongRefl(p.z * p.z);
    CongMul(p.x * p.y, p.z * p.t, q.z * q.z, q.z * q.z);
    CongMul(q.x * q.y, q.z * q.t, p.z * p.z, p.z * p.z);
    Pairs(p.x, q.z, p.y);
    Pairs(q.x, p.z, q.y);
    CongSym((p.x * p.y) * (q.z * q.z), (p.z * p.t) * (q.z * q.z));
    CongTrans((p.z * p.t) * (q.z * q.z), (p.x * p.y) * (q.z * q.z), (q.x * q.y) * (p.z * p.z));
    CongTrans((p.z * p.t) * (q.z * q.z), (q.x * q.y) * (p.z * p.z), (q.z * q.t) * (p.z * p.z));
    TieBack(p.t, p.z, q.t, q.z);
    NonZeroProduct(p.z, q.z);
    CancelFactor(p.t * q.z, q.t * p.z, p.z * q.z);
  }

  lemma Pairs(x: int, z: int, y: int)
    ensures (x * z) * (y * z) == (x * y) * (z * z)
  {
  }

  lemma TieBack(t: int, z: int, t': int, z': int)
    ensures (z * t) * (z' * z') == (t * z') * (z * z') && (z' * t') * (z * z) == (t' * z) * (z * z')
  {
  }

  /** p * k and q * m agree in every coordinate. */
  predicate Proportional(p: Point, k: int, q: Point, m: int) {
    Cong(p.x * k, q.x * m) && Cong(p.y * k, q.y * m) && Cong(p.z * k, q.z * m) && Cong(p.t * k, q.t * m)
  }

  lemma FactorsScale(p: Point, k: int, q: Point, m: int, r: Point)
    requires Proportional(p, k, q, m)
    ensures Cong(E(p, r) * k, E(q, r) * m) && Cong(F(p, r) * k, F(q, r) * m)
    ensures Cong(G(p, r) * k, G(q, r) * m) && Cong(H(p, r) * k, H(q, r) * m)
  {
    hide Cong;
    CongRefl(2 * r.y);
    CongRefl(2 * r.x);
    CongRefl(2 * r.z);
    CongRefl(2 * D * r.t);
    CongMul(p.x * k, q.x * m, 2 * r.y, 2 * r.y);
    CongMul(p.y * k, q.y * m, 2 * r.x, 2 * r.x);
    CongMul(p.y * k, q.y * m, 2 * r.y, 2 * r.y);
    CongMul(p.x * k, q.x * m, 2 * r.x, 2 * r.x);
    CongMul(p.z * k, q.z * m, 2 * r.z, 2 * r.z);
    CongMul(p.t * k, q.t * m, 2 * D * r.t, 2 * D * r.t);
    CongAdd((p.x * k) * (2 * r.y), (q.x * m) * (2 * r.y), (p.y * k) * (2 * r.x), (q.y * m) * (2 * r.x));
    CongAdd((p.y * k) * (2 * r.y), (q.y * m) * (2 * r.y), (p.x * k) * (2 * r.x), (q.x * m) * (2 * r.x));
    CongSub((p.z * k) * (2 * r.z), (q.z * m) * (2 * r.z), (p.t * k) * (2 * D * r.t), (q.t * m) * (2 * D * r.t));
    CongAdd((p.z * k) * (2 * r.z), (q.z * m) * (2 * r.z), (p.t * k) * (2 * D * r.t), (q.t * m) * (2 * D * r.t));
    FactorsExpand(p, k, r);
    FactorsExpand(q, m, r);
  }

  lemma FactorsExpand(p: Point, k: int, r: Point)
    ensures E(p, r) * k == (p.x * k) * (2 * r.y) + (p.y * k) * (2 * r.x)
    ensures H(p, r) * k == (p.y * k) * (2 * r.y) + (p.x * k) * (2 * r.x)
    ensures F(p, r) * k == (p.z * k) * (2 * r.z) - (p.t * k) * (2 * D * r.t)
    ensures G(p, r) * k == (p.z * k) * (2 * r.z) + (p.t * k) * (2 * D * r.t)
  {
    ExpandCross(p.x, p.y, r.x, r.y, k);
    ExpandLine(p.z, p.t, r.z, r.t, D, k);
  }

  lemma ExpandCross(x: int, y: int, u: int, v: int, k: int)
    ensures ((y + x) * (v + u) - (y - x) * (v - u)) * k == (x * k) * (2 * v) + (y * k) * (2 * u)
    ensures ((y + x) * (v + u) + (y - x) * (v - u)) * k == (y * k) * (2 * v) + (x * k) * (2 * u)
  {
    assert (y + x) * (v + u) == y * v + y * u + x * v + x * u;
    assert (y - x) * (v - u) == y * v - y * u - x * v + x * u;
  }

  lemma ExpandLine(z: int, t: int, w: int, s: int, d: int, k: int)
    ensures (z * 2 * w - t * 2 * d * s) * k == (z * k) * (2 * w) - (t * k) * (2 * d * s)
    ensures (z * 2 * w + t * 2 * d * s) * k == (z * k) * (2 * w) + (t * k) * (2 * d * s)
  {
    assert z * 2 * w * k == (z * k) * (2 * w);
    assert t * 2 * d * s * k == (t * k) * (2 * d * s);
  }

  /** Two products of proportional factors. */
  lemma ProductScales(a: int, b: int, a': int, b': int, k: int, m: int, x: int, x': int)
    requires Cong(a * k, a' * m) && Cong(b * k, b' * m) && Cong(x, a * b) && Cong(x', a' * b')
    ensures Cong(x * (k * k), x' * (m * m))
  {
    hide Cong;
    CongMul(a * k, a' * m, b * k, b' * m);
    Pairs(a, k, b);
    Pairs(a', m, b');
    CongRefl(k * k);
    CongRefl(m * m);
    CongMul(x, a * b, k * k, k * k);
    CongMul(x', a' * b', m * m, m * m);
    CongTrans(x * (k * k), (a * b) * (k * k), (a' * b') * (m * m));
    CongSym(x' * (m * m), (a' * b') * (m * m));
    CongTrans(x * (k * k), (a' * b') * (m * m), x' * (m * m));
  }

  /** Sums of proportional points are equal. */
  lemma SumsEqual(u: Point, v: Point, k: int, m: int)
    requires Field() && k % P != 0 && m % P != 0
    requires Cong(u.x * k, v.x * m) && Cong(u.y * k, v.y * m) && Cong(u.z * k, v.z * m)
    ensures Eq(u, v)
  {
    hide Cong, Cancels;
    RatioEqual(u.x, u.z, v.x, v.z, k, m);
    RatioEqual(u.y, u.z, v.y, v.z, k, m);
    CongIs(u.x * v.z, v.x * u.z);
    CongIs(u.y * v.z, v.y * u.z);
  }

  lemma RatioEqual(x: int, z: int, x': int, z': int, k: int, m: int)
    requires Field() && k % P != 0 && m % P != 0 && Cong(x * k, x' * m) && Cong(z * k, z' * m)
    ensures Cong(x * z', x' * z)
  {
    hide Cong, Cancels;
    CongSym(z * k, z' * m);
    CongMul(x * k, x' * m, z' * m, z * k);
    assert (x * k) * (z' * m) == (x * z') * (k * m) by { Cross(x, k, z', m); }
    assert (x' * m) * (z * k) == (x' * z) * (k * m) by { Cross(x', m, z, k); }
    NonZeroProduct(k, m);
    CancelFactor(x * z', x' * z, k * m);
  }

  lemma Cross(x: int, k: int, z: int, m: int)
    ensures (x * k) * (z * m) == (x * z) * (k * m) == (x * z) * (m * k)
  {
  }

  lemma EqIs(p: Point, q: Point)
    requires Eq(p, q)
    ensures (p.x * q.z - q.x * p.z) % P == 0 && (p.y * q.z - q.y * p.z) % P == 0
  {
  }

  lemma EqProportional(on: Point -> bool, p: Point, q: Point)
    requires Field() && Curve(on) && on(p) && on(q) && Eq(p, q)
    ensures p.z % P != 0 && q.z % P != 0 && Proportional(p, q.z, q, p.z)
  {
    hide Cong, Cancels, Add, Eq, ClosedAt, AssociatesAt;
    assert ExtendedAt(on, p) && ExtendedAt(on, q);
    EqualT(p, q);
    EqIs(p, q);
    CongFrom(p.x * q.z, q.x * p.z);
    CongFrom(p.y * q.z, q.y * p.z);
    CongRefl(p.z * q.z);
    assert p.z * q.z == q.z * p.z;
  }

  lemma SumsProportional(p: Point, k: int, q: Point, m: int, r: Point)
    requires Field() && k % P != 0 && m % P != 0 && Proportional(p, k, q, m)
    ensures Eq(Add(p, r), Add(q, r))
  {
    hide Cong, Cancels, Add, E, F, G, H, Eq, Field, Proportional;
    FactorsScale(p, k, q, m, r);
    AddFactors(p, r);
    AddFactors(q, r);
    var u, v := Add(p, r), Add(q, r);
    ProductScales(E(p, r), F(p, r), E(q, r), F(q, r), k, m, u.x, v.x);
    ProductScales(G(p, r), H(p, r), G(q, r), H(q, r), k, m, u.y, v.y);
    ProductScales(F(p, r), G(p, r), F(q, r), G(q, r), k, m, u.z, v.z);
    NonZeroProduct(k, k);
    NonZeroProduct(m, m);
    SumsEqual(u, v, k * k, m * m);
  }

  /** _pt_add respects _pt_eq. */
  lemma AddRespectsEq(on: Point -> bool, p: Point, q: Point, r: Point)
    requires Field() && Curve(on) && on(p) && on(q) && Eq(p, q)
    ensures Eq(Add(p, r), Add(q, r)) && Eq(Add(r, p), Add(r, q))
  {
    hide Add, Field, Curve, Eq, Proportional;
    EqProportional(on, p, q);
    SumsProportional(p, q.z, q, p.z, r);
    AddCommutes(p, r);
    AddCommutes(q, r);
  }

  // ----- multiples -----

  /** n-fold addition. */
  function Fold(n: nat, p: Point): Point {
    if n == 0 then IDENT else Add(Fold(n - 1, p), p)
  }

  /** Equal points of the curve. */
  predicate Same(on: Point -> bool, p: Point, q: Point) {
    on(p) && on(q) && Eq(p, q)
  }

  lemma SameRefl(on: Point -> bool, p: Point)
    requires on(p)
    ensures Same(on, p, p)
  {
    assert p.x * p.z - p.x * p.z == 0 && p.y * p.z - p.y * p.z == 0;
  }

  lemma SameSym(on: Point -> bool, p: Point, q: Point)
    requires Same(on, p, q)
    ensures Same(on, q, p)
  {
    hide Eq;
    EqSymmetric(p, q);
  }

  lemma SameTrans(on: Point -> bool, p: Point, q: Point, r: Point)
    requires Field() && Curve(on) && Same(on, p, q) && Same(on, q, r)
    ensures Same(on, p, r)
  {
    hide Eq, Field, ClosedAt, AssociatesAt;
    assert ExtendedAt(on, q);
    EqTransitive(p, q, r);
  }

  /** Sums of equal points are equal. */
  lemma SameAdd(on: Point -> bool, p: Point, q: Point, r: Point, t: Point)
    requires Field() && Curve(on) && Same(on, p, q) && Same(on, r, t)
    ensures Same(on, Add(p, r), Add(q, t))
  {
    hide Eq, Field, Add, AssociatesAt, ExtendedAt;
    assert ClosedAt(on, p, r) && ClosedAt(on, q, r) && ClosedAt(on, q, t);
    AddRespectsEq(on, p, q, r);
    AddRespectsEq(on, r, t, q);
    SameTrans(on, Add(p, r), Add(q, r), Add(q, t));
  }

  lemma SameAssoc(on: Point -> bool, p: Point, q: Point, r: Point)
    requires Curve(on) && on(p) && on(q) && on(r)
    ensures Same(on, Add(Add(p, q), r), Add(p, Add(q, r)))
  {
    hide Eq, Add, ExtendedAt;
    assert ClosedAt(on, p, q) && ClosedAt(on, q, r) && ClosedAt(on, Add(p, q), r) && ClosedAt(on, p, Add(q, r));
    assert AssociatesAt(on, p, q, r);
  }

  lemma SameIdent(on: Point -> bool, p: Point)
    requires Curve(on) && on(p)
    ensures Same(on, Add(p, IDENT), p) && Same(on, p, Add(p, IDENT))
  {
    hide Eq, Add, ExtendedAt, AssociatesAt;
    assert ClosedAt(on, p, IDENT);
    IdentNeutral(p);
  }

  lemma {:induction false} FoldOn(on: Point -> bool, n: nat, p: Point)
    requires Curve(on) && on(p)
    ensures on(Fold(n, p))
  {
    hide Eq, Add, ExtendedAt, AssociatesAt;
    if n > 0 {
      FoldOn(on, n - 1, p);
      assert ClosedAt(on, Fold(n - 1, p), p);
    }
  }

  /** (m + n) p = m p + n p. */
  lemma {:induction false} FoldSum(on: Point -> bool, m: nat, n: nat, p: Point)
    requires Field() && Curve(on) && on(p)
    ensures Same(on, Fold(m + n, p), Add(Fold(m, p), Fold(n, p)))
  {
    hide Eq, Add, Field, Curve, Same;
    FoldOn(on, m, p);
    if n == 0 {
      SameIdent(on, Fold(m, p));
    } else {
      FoldOn(on, n - 1, p);
      FoldSum(on, m, n - 1, p);
      SameRefl(on, p);
      SameAdd(on, Fold(m + n - 1, p), Add(Fold(m, p), Fold(n - 1, p)), p, p);
      SameAssoc(on, Fold(m, p), Fold(n - 1, p), p);
      SameTrans(on, Fold(m + n, p), Add(Add(Fold(m, p), Fold(n - 1, p)), p), Add(Fold(m, p), Fold(n, p)));
    }
  }

  /** (m n) p = m (n p). */
  lemma {:induction false} FoldProduct(on: Point -> bool, m: nat, n: nat, p: Point)
    requires Field() && Curve(on) && on(p)
    ensures Same(on, Fold(m * n, p), Fold(m, Fold(n, p)))
  {
    hide Eq, Add, Field, Curve, Same;
    FoldOn(on, n, p);
    if m == 0 {
      FoldOn(on, 0, p);
      SameRefl(on, IDENT);
    } else {
      FoldProduct(on, m - 1, n, p);
      assert m * n == (m - 1) * n + n;
      FoldSum(on, (m - 1) * n, n, p);
      SameRefl(on, Fold(n, p));
      SameAdd(on, Fold((m - 1) * n, p), Fold(m - 1, Fold(n, p)), Fold(n, p), Fold(n, p));
      SameTrans(on, Fold(m * n, p), Add(Fold((m - 1) * n, p), Fold(n, p)), Fold(m, Fold(n, p)));
    }
  }

  lemma {:induction false} FoldSame(on: Point -> bool, n: nat, p: Point, q: Point)
    requires Field() && Curve(on) && Same(on, p, q)
    ensures Same(on, Fold(n, p), Fold(n, q))
  {
    hide Eq, Add, Field, Curve, Same;
    if n == 0 {
      IdentOn(on);
      SameRefl(on, IDENT);
    } else {
      FoldSame(on, n - 1, p, q);
      SameAdd(on, Fold(n - 1, p), Fold(n - 1, q), p, q);
    }
  }

  lemma IdentOn(on: Point -> bool)
    requires Curve(on)
    ensures on(IDENT)
  {
  }

  lemma {:induction false} FoldIdent(on: Point -> bool, n: nat)
    requires Field() && Curve(on)
    ensures Same(on, Fold(n, IDENT), IDENT)
  {
    hide Eq, Add, Field, Curve, Same;
    IdentOn(on);
    SameRefl(on, IDENT);
    if n > 0 {
      FoldIdent(on, n - 1);
      SameAdd(on, Fold(n - 1, IDENT), IDENT, IDENT, IDENT);
      SameIdent(on, IDENT);
      SameTrans(on, Fold(n, IDENT), Add(IDENT, IDENT), IDENT);
    }
  }

  // ----- _pt_mul -----

  /** What the loop of _pt_mul still has to add to q. */
  function MulFrom(s: nat, p: Point, q: Point): Point {
    if s == 0 then q else MulFrom(s / 2, Add(p, p), if s % 2 == 1 then Add(q, p) else q)
  }

  function Mul(s: nat, p: Point): Point {
    MulFrom(s, p, IDENT)
  }

  /** _pt_mul. */
  method PtMul(s: nat, p: Point) returns (q: Point)
    ensures q == Mul(s, p)
  {
    hide Add;
    q := IDENT;
    var n, d := s, p;
    while n > 0
      invariant MulFrom(n, d, q) == Mul(s, p)
    {
      if n % 2 == 1 {
        q := Add(q, d);
      }
      d := Add(d, d);
      n := n / 2;
    }
  }

  /** Doubling the point halves the count. */
  lemma {:induction false} FoldDouble(on: Point -> bool, h: nat, p: Point)
    requires Field() && Curve(on) && on(p)
    ensures on(Add(p, p)) && Same(on, Fold(h, Add(p, p)), Fold(2 * h, p))
  {
    hide Eq, Add, Field, Same, ExtendedAt, AssociatesAt;
    assert ClosedAt(on, p, p);
    FoldOn(on, 2, p);
    assert Fold(2, p) == Add(Add(IDENT, p), p) by { assert Fold(1, p) == Add(Fold(0, p), p); }
    SameIdent(on, p);
    AddCommutes(p, IDENT);
    SameRefl(on, p);
    SameAdd(on, Add(IDENT, p), p, p, p);
    SameSym(on, Fold(2, p), Add(p, p));
    FoldSame(on, h, Add(p, p), Fold(2, p));
    FoldProduct(on, h, 2, p);
    assert h * 2 == 2 * h;
    SameSym(on, Fold(h * 2, p), Fold(h, Fold(2, p)));
    SameTrans(on, Fold(h, Add(p, p)), Fold(h, Fold(2, p)), Fold(2 * h, p));
  }

  /** Double-and-add is s-fold addition. */
  lemma {:induction false} MulFromIsFold(on: Point -> bool, s: nat, p: Point, q: Point)
    requires Field() && Curve(on) && on(p) && on(q)
    ensures Same(on, MulFrom(s, p, q), Add(q, Fold(s, p)))
  {
    hide Eq, Add, Field, Same, ExtendedAt, AssociatesAt;
    if s == 0 {
      SameIdent(on, q);
    } else {
      var h, d := s / 2, Add(p, p);
      FoldDouble(on, h, p);
      FoldOn(on, 2 * h, p);
      if s % 2 == 0 {
        assert s == 2 * h;
        MulFromIsFold(on, h, d, q);
        SameRefl(on, q);
        SameAdd(on, q, q, Fold(h, d), Fold(s, p));
        SameTrans(on, MulFrom(s, p, q), Add(q, Fold(h, d)), Add(q, Fold(s, p)));
      } else {
        assert s == 2 * h + 1;
        assert ClosedAt(on, q, p);
        MulFromIsFold(on, h, d, Add(q, p));
        SameRefl(on, Add(q, p));
        SameAdd(on, Add(q, p), Add(q, p), Fold(h, d), Fold(2 * h, p));
        SameTrans(on, MulFrom(s, p, q), Add(Add(q, p), Fold(h, d)), Add(Add(q, p), Fold(2 * h, p)));
        SameAssoc(on, q, p, Fold(2 * h, p));
        AddCommutes(p, Fold(2 * h, p));
        SameTrans(on, MulFrom(s, p, q), Add(Add(q, p), Fold(2 * h, p)), Add(q, Fold(s, p)));
      }
    }
  }

  /** _pt_mul(s, p) is s-fold addition, for every s. */
  lemma MulIsFold(on: Point -> bool, s: nat, p: Point)
    requires Field() && Curve(on) && on(p)
    ensures Same(on, Mul(s, p), Fold(s, p))
  {
    hide Eq, Add, Field, Curve, Same, MulFrom;
    IdentOn(on);
    FoldOn(on, s, p);
    MulFromIsFold(on, s, p, IDENT);
    AddCommutes(IDENT, Fold(s, p));
    SameIdent(on, Fold(s, p));
    SameTrans(on, Mul(s, p), Add(IDENT, Fold(s, p)), Fold(s, p));
  }

  // ----- little-endian bytes -----

  function Pow256(k: nat): (n: nat)
    ensures n >= 1
  {
    if k == 0 then 1 else 256 * Pow256(k - 1)
  }

  /** int.to_bytes(k, "little"). */
  function ToLittle(n: nat, k: nat): (b: bytes)
    ensures |b| == k
  {
    if k == 0 then [] else [n % 256] + ToLittle(n / 256, k - 1)
  }

  /** int.from_bytes(b, "little"). */
  function FromLittle(b: bytes): nat {
    if b == [] then 0 else b[0] + 256 * FromLittle(b[1..])
  }

  lemma {:induction false} LittleRoundTrip(n: nat, k: nat)
    requires n < Pow256(k)
    ensures FromLittle(ToLittle(n, k)) == n
  {
    if k > 0 {
      LittleRoundTrip(n / 256, k - 1);
      assert ToLittle(n, k)[1..] == ToLittle(n / 256, k - 1);
    }
  }

  lemma {:induction false} Pow256Sum(a: nat, b: nat)
    ensures Pow256(a + b) == Pow256(a) * Pow256(b)
  {
    if a > 0 {
      Pow256Sum(a - 1, b);
      assert 256 * (Pow256(a - 1) * Pow256(b)) == (256 * Pow256(a - 1)) * Pow256(b);
    }
  }

  lemma {:induction false} LittleAppend(a: bytes, b: bytes)
    ensures FromLittle(a + b) == FromLittle(a) + Pow256(|a|) * FromLittle(b)
  {
    if a == [] {
      assert a + b == b;
    } else {
      LittleAppend(a[1..], b);
      assert (a + b)[1..] == a[1..] + b;
      assert 256 * (Pow256(|a| - 1) * FromLittle(b)) == Pow256(|a|) * FromLittle(b);
    }
  }

  lemma {:induction false} LittleRepeat(k: nat, d: byte)
    ensures 255 * FromLittle(Repeat(d, k)) == d * (Pow256(k) - 1)
  {
    if k > 0 {
      LittleRepeat(k - 1, d);
      assert Repeat(d, k)[1..] == Repeat(d, k - 1);
    }
  }

  lemma Powers()
    ensures Pow256(16) == 0x1_00000000_00000000_00000000_00000000
    ensures Pow256(31) == 0x1_000000_00000000_00000000_00000000_00000000_00000000_00000000_00000000
    ensures Pow256(32) == 256 * Pow256(31) && Pow256(31) == 256 * Pow256(30) && Pow256(1) == 256
  {
    assert Pow256(16) == 0x1_00000000_00000000_00000000_00000000;
    assert Pow256(31) == Pow256(16) * Pow256(15) by { Pow256Sum(16, 15); }
    assert Pow256(15) == 0x1_000000_00000000_00000000_00000000;
  }

  /** The two constants as numbers: 2^255 - 19 and 2^252 + 27742317777372353535851937790883648493. */
  lemma PrimeAndOrder()
    ensures P == 0x7fffffff_ffffffff_ffffffff_ffffffff_ffffffff_ffffffff_ffffffff_ffffffed
    ensures L == 0x10000000_00000000_00000000_00000000_14def9de_a2f79cd6_5812631a_5cf5d3ed
    ensures L < Pow256(32)
  {
    hide FromLittle, Repeat, Pow256;
    Powers();
    LittleRepeat(30, 0xff);
    LittleRepeat(15, 0);
    Bracketed([0xed], Repeat(0xff, 30), 0x7f);
    Bracketed(ORDER_LOW, Repeat(0, 15), 0x10);
    OneDigit(0xed);
    OrderLow();
  }

  lemma OneDigit(d: byte)
    ensures FromLittle([d]) == d
  {
  }

  lemma Bracketed(low: bytes, mid: bytes, top: byte)
    ensures FromLittle(low + mid + [top])
      == FromLittle(low) + Pow256(|low|) * FromLittle(mid) + Pow256(|low| + |mid|) * top
  {
    hide FromLittle, Pow256;
    LittleAppend(low + mid, [top]);
    LittleAppend(low, mid);
    OneDigit(top);
  }

  lemma OrderLow()
    ensures |ORDER_LOW| == 16 && FromLittle(ORDER_LOW) == 0x14def9de_a2f79cd6_5812631a_5cf5d3ed
  {
    hide Pow256;
    Eights();
    assert ORDER_LOW == ORDER_LOW[..8] + ORDER_LOW[8..];
    LittleAppend(ORDER_LOW[..8], ORDER_LOW[8..]);
    EightDigits(ORDER_LOW[..8]);
    EightDigits(ORDER_LOW[8..]);
    assert FromLittle([]) == 0;
  }

  lemma EightDigits(b: bytes)
    requires |b| == 8
    ensures FromLittle(b) == b[0] + 256 * (b[1] + 256 * (b[2] + 256 * (b[3]
      + 256 * (b[4] + 256 * (b[5] + 256 * (b[6] + 256 * (b[7] + 256 * FromLittle([]))))))))
  {
    FourDigits(b);
    FourDigits(b[4..]);
    assert b[4..][4..] == [];
  }

  lemma FourDigits(b: bytes)
    requires |b| >= 4
    ensures FromLittle(b) == b[0] + 256 * (b[1] + 256 * (b[2] + 256 * (b[3] + 256 * FromLittle(b[4..]))))
  {
    assert b[1..][1..] == b[2..] && b[2..][1..] == b[3..] && b[3..][1..] == b[4..];
  }

  lemma Eights()
    ensures Pow256(8) == 0x1_0000000000000000
  {
    assert Pow256(4) == 256 * Pow256(3) && Pow256(8) == 256 * Pow256(7);
  }

  // ----- keys, signatures -----

  type Digest512 = s: bytes | |s| == 64 witness seq(64, _ => 0)

  /** SHA-512, uninterpreted. */
  const SHA512: bytes -> Digest512

  const TWO_255: int := 0x80000000_00000000_00000000_00000000_00000000_00000000_00000000_00000000
  const TWO_254: int := 0x40000000_00000000_00000000_00000000_00000000_00000000_00000000_00000000

  /** The square of x on the curve at height y, and the candidate root. */
  function SquareAt(y: int): int {
    (y * y - 1) * Inv(D * y * y + 1) % P
  }

  function RootOf(xx: int): int {
    var x := PowMod(xx, (P + 3) / 8);
    if (x * x - xx) % P != 0 then x * I % P else x
  }

  const BASE_Y: int := 4 * Inv(5) % P
  const BASE_X: int := var x := RootOf(SquareAt(BASE_Y)); if x % 2 != 0 then P - x else x

  /** _B. */
  const BASE: Point := Point(BASE_X, BASE_Y, 1, BASE_X * BASE_Y % P)

  /** _pt_compress: y, and the parity of x in the top bit. */
  function Compress(p: Point): (b: bytes)
    ensures |b| == 32
  {
    var zi := Inv(p.z);
    var x, y := p.x * zi % P, p.y * zi % P;
    ToLittle(y + x % 2 * TWO_255, 32)
  }

  /** _pt_decompress. */
  function Decompress(s: bytes): Option<Point> {
    if |s| != 32 then None
    else
      var n := FromLittle(s);
      var sign, y := n / TWO_255, n % TWO_255;
      if y >= P then None
      else
        var xx := SquareAt(y);
        var x := RootOf(xx);
        if (x * x - xx) % P != 0 then None
        else if x == 0 && sign != 0 then None
        else
          var x' := if x % 2 != sign then P - x else x;
          Some(Point(x', y, 1, x' * y % P))
  }

  /** The secret scalar: bits 0 to 2 and 254, 255 fixed. */
  function SecretScalar(h: Digest512): nat {
    var a := FromLittle(h[..32]);
    a % TWO_254 - a % 8 + TWO_254
  }

  function PublicKey(seed: bytes): bytes {
    Compress(Mul(SecretScalar(SHA512(seed)), BASE))
  }

  function Challenge(rp: bytes, pub: bytes, msg: bytes): nat {
    FromLittle(SHA512(rp + pub + msg)) % L
  }

  /** ed25519_sign. */
  function Sign(seed: bytes, msg: bytes): bytes {
    var h := SHA512(seed);
    var a, pub := SecretScalar(h), PublicKey(seed);
    var r := FromLittle(SHA512(h[32..] + msg)) % L;
    var rp := Compress(Mul(r, BASE));
    rp + ToLittle((r + Challenge(rp, pub, msg) * a) % L, 32)
  }

  /** ed25519_verify. */
  predicate Verify(pub: bytes, msg: bytes, sig: bytes) {
    |sig| == 64 &&
    var a, rp, s := Decompress(pub), Decompress(sig[..32]), FromLittle(sig[32..]);
    a.Some? && rp.Some? && s < L
    && Eq(Mul(s, BASE), Add(rp.value, Mul(Challenge(sig[..32], pub, msg), a.value)))
  }

  // ----- signatures verify -----

  predicate DecodesAt(on: Point -> bool, p: Point) {
    on(p) ==> Decompress(Compress(p)).Some? && Same(on, Decompress(Compress(p)).value, p)
  }

  /** The base point is on the curve and has order dividing L; decoding undoes
      encoding. */
  ghost predicate Group(on: Point -> bool) {
    Field() && Curve(on) && on(BASE) && Same(on, Fold(L, BASE), IDENT) && forall p :: DecodesAt(on, p)
  }

  /** Multiples of a point of order dividing m are reduced modulo m. */
  lemma FoldReduced(on: Point -> bool, m: nat, b: Point, n: nat)
    requires Field() && Curve(on) && m > 0 && Same(on, b, b) && Same(on, Fold(m, b), IDENT)
    ensures Same(on, Fold(n % m, b), Fold(n, b))
  {
    hide Eq, Add, Field, Curve, Same, Fold;
    SameOn(on, b, b);
    var q, s := n / m, n % m;
    FoldOn(on, s, b);
    FoldSum(on, s, q * m, b);
    FoldProduct(on, q, m, b);
    FoldSame(on, q, Fold(m, b), IDENT);
    FoldIdent(on, q);
    SameTrans(on, Fold(q * m, b), Fold(q, Fold(m, b)), Fold(q, IDENT));
    SameTrans(on, Fold(q * m, b), Fold(q, IDENT), IDENT);
    SameRefl(on, Fold(s, b));
    SameAdd(on, Fold(s, b), Fold(s, b), Fold(q * m, b), IDENT);
    SameIdent(on, Fold(s, b));
    SameTrans(on, Fold(s + q * m, b), Add(Fold(s, b), Fold(q * m, b)), Add(Fold(s, b), IDENT));
    SameTrans(on, Fold(s + q * m, b), Add(Fold(s, b), IDENT), Fold(s, b));
    assert s + q * m == n;
    SameSym(on, Fold(n, b), Fold(s, b));
  }

  /** The verification equation: (r + k a) B = R + k A, for a base point B of order dividing m. */
  lemma Equation(on: Point -> bool, m: nat, b: Point, r: nat, k: nat, a: nat, rp: Point, ap: Point)
    requires Field() && Curve(on) && m > 0 && Same(on, b, b) && Same(on, Fold(m, b), IDENT)
    requires Same(on, rp, Mul(r, b)) && Same(on, ap, Mul(a, b))
    ensures Same(on, Mul((r + k * a) % m, b), Add(rp, Mul(k, ap)))
  {
    hide Eq, Add, Field, Curve, Same, Fold, Mul;
    SameOn(on, b, b);
    var s := (r + k * a) % m;
    MulIsFold(on, s, b);
    FoldReduced(on, m, b, r + k * a);
    SameTrans(on, Mul(s, b), Fold(s, b), Fold(r + k * a, b));
    FoldSum(on, r, k * a, b);
    SameTrans(on, Mul(s, b), Fold(r + k * a, b), Add(Fold(r, b), Fold(k * a, b)));
    // R
    MulIsFold(on, r, b);
    SameTrans(on, rp, Mul(r, b), Fold(r, b));
    SameSym(on, rp, Fold(r, b));
    // k A
    MulIsFold(on, a, b);
    SameTrans(on, ap, Mul(a, b), Fold(a, b));
    SameOn(on, ap, Fold(a, b));
    MulIsFold(on, k, ap);
    FoldSame(on, k, ap, Fold(a, b));
    SameTrans(on, Mul(k, ap), Fold(k, ap), Fold(k, Fold(a, b)));
    FoldProduct(on, k, a, b);
    SameSym(on, Mul(k, ap), Fold(k, Fold(a, b)));
    SameTrans(on, Fold(k * a, b), Fold(k, Fold(a, b)), Mul(k, ap));
    SameAdd(on, Fold(r, b), rp, Fold(k * a, b), Mul(k, ap));
    SameTrans(on, Mul(s, b), Add(Fold(r, b), Fold(k * a, b)), Add(rp, Mul(k, ap)));
  }

  lemma SameOn(on: Point -> bool, p: Point, q: Point)
    requires Same(on, p, q)
    ensures on(p) && on(q) && Eq(p, q)
  {
  }

  lemma GroupParts(on: Point -> bool)
    requires Group(on)
    ensures Field() && Curve(on) && Same(on, BASE, BASE) && Same(on, Fold(L, BASE), IDENT)
  {
    hide Eq, Field, Curve, Same, DecodesAt, Fold;
    SameRefl(on, BASE);
  }

  lemma MulDecodes(on: Point -> bool, n: nat)
    requires Group(on)
    ensures Decompress(Compress(Mul(n, BASE))).Some?
    ensures Same(on, Decompress(Compress(Mul(n, BASE))).value, Mul(n, BASE))
  {
    hide Eq, Add, Field, Curve, Fold, Mul, Compress, Decompress;
    MulIsFold(on, n, BASE);
    assert DecodesAt(on, Mul(n, BASE));
  }

  /** ed25519_verify accepts every ed25519_sign output. */
  lemma SignaturesVerify(on: Point -> bool, seed: bytes, msg: bytes)
    requires Group(on)
    ensures Verify(PublicKey(seed), msg, Sign(seed, msg))
  {
    hide Group, Add, Mul, Compress, Decompress, Same, Eq, SecretScalar, Pow256, FromLittle, ToLittle;
    var h := SHA512(seed);
    var a, pub := SecretScalar(h), PublicKey(seed);
    var r := FromLittle(SHA512(h[32..] + msg)) % L;
    var rp := Compress(Mul(r, BASE));
    var k := Challenge(rp, pub, msg);
    var s := (r + k * a) % L;
    var sig := Sign(seed, msg);
    assert sig == rp + ToLittle(s, 32);
    assert sig[..32] == rp && sig[32..] == ToLittle(s, 32);
    PrimeAndOrder();
    LittleRoundTrip(s, 32);
    MulDecodes(on, r);
    MulDecodes(on, a);
    var rv, av := Decompress(rp).value, Decompress(pub).value;
    GroupParts(on);
    Equation(on, L, BASE, r, k, a, rv, av);
    SameOn(on, Mul(s, BASE), Add(rv, Mul(k, av)));
  }
}
