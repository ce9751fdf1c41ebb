/** DSSE pre-authentication encoding and the RFC 6962 tree: equal roots commit to
    equal record sequences. */
module Merkle {
  import opened Core
  import Utf8

  const SPACE: byte := 0x20
  const DSSE_V1: bytes := Ascii("DSSEv1 ")

  // ----- PAE -----

  /** A length-prefixed field of the encoding. */
  function Field(b: bytes): bytes {
    DecText(|b|) + ([SPACE] + b)
  }

  /** PAE: "DSSEv1", then type and payload, each behind its length in bytes. */
  function Pae(payloadType: string, payload: bytes): bytes {
    DSSE_V1 + (Field(Utf8.EncodeString(payloadType)) + ([SPACE] + Field(payload)))
  }

  /** A field delimits itself. */
  lemma FieldUnique(a: bytes, x: bytes, b: bytes, y: bytes)
    requires Field(a) + x == Field(b) + y
    ensures a == b && x == y
  {
    var m, n := DecText(|a|), DecText(|b|);
    assert Field(a) + x == m + ([SPACE] + (a + x)) && Field(b) + y == n + ([SPACE] + (b + y));
    DigitsDelimited(m, [SPACE] + (a + x), n, [SPACE] + (b + y));
    DecTextInjective(|a|, |b|);
    assert ([SPACE] + (a + x))[1..] == a + x && ([SPACE] + (b + y))[1..] == b + y;
    assert a == (a + x)[..|a|] && b == (b + y)[..|b|];
    assert x == (a + x)[|a|..] && y == (b + y)[|b|..];
  }

  lemma DigitsDelimited(m: bytes, r: bytes, n: bytes, t: bytes)
    requires AllDigits(m) && AllDigits(n) && r != [] && t != [] && !IsDigit(r[0]) && !IsDigit(t[0])
    requires m + r == n + t
    ensures m == n && r == t
  {
    DigitRunOf(m, r);
    DigitRunOf(n, t);
    assert m == (m + r)[..|m|] && n == (n + t)[..|n|];
    assert r == (m + r)[|m|..] && t == (n + t)[|n|..];
  }

  /** PAE decodes uniquely. */
  lemma PaeInjective(t: string, p: bytes, u: string, q: bytes)
    requires Pae(t, p) == Pae(u, q)
    ensures t == u && p == q
  {
    var a, b := Utf8.EncodeString(t), Utf8.EncodeString(u);
    var n := |DSSE_V1|;
    assert Pae(t, p)[n..] == Field(a) + ([SPACE] + Field(p));
    assert Pae(u, q)[n..] == Field(b) + ([SPACE] + Field(q));
    FieldUnique(a, [SPACE] + Field(p), b, [SPACE] + Field(q));
    assert ([SPACE] + Field(p))[1..] == Field(p) && ([SPACE] + Field(q))[1..] == Field(q);
    assert Field(p) + [] == Field(p) && Field(q) + [] == Field(q);
    FieldUnique(p, [], q, []);
    Utf8.EncodeStringInjective(t, u);
  }

  // ----- the tree -----

  function LeafInput(pae: bytes): bytes {
    [0] + pae
  }

  function NodeInput(left: Digest, right: Digest): bytes {
    [1] + left + right
  }

  function LeafHash(pae: bytes): Digest {
    Sha256(LeafInput(pae))
  }

  /** Powers of two from 1 up. */
  predicate PowerOfTwo(k: nat) {
    k == 1 || (k > 1 && k % 2 == 0 && PowerOfTwo(k / 2))
  }

  /** The largest power of two strictly below n, by doubling. */
  function Split(n: nat): (k: nat)
    requires n >= 2
    ensures 0 < k < n <= 2 * k && PowerOfTwo(k)
  {
    Double(1, n)
  }

  function Double(k: nat, n: nat): (r: nat)
    requires 0 < k < n && PowerOfTwo(k)
    ensures 0 < r < n <= 2 * r && PowerOfTwo(r)
    decreases n - k
  {
    if k * 2 < n then Double(k * 2, n) else k
  }

  lemma DoubleStep(k: nat, n: nat)
    requires 0 < k < n && PowerOfTwo(k)
    ensures k * 2 < n ==> PowerOfTwo(k * 2) && Double(k * 2, n) == Double(k, n)
    ensures k * 2 >= n ==> Double(k, n) == k
  {
    assert k * 2 / 2 == k;
  }

  /** largestPowerOfTwoBelow. */
  method LargestPowerOfTwoBelow(n: nat) returns (k: nat)
    requires n >= 2
    ensures k == Split(n)
    ensures 0 < k < n <= 2 * k && PowerOfTwo(k)
  {
    hide Double;
    k := 1;
    DoubleStep(k, n);
    while k * 2 < n
      invariant 0 < k < n && PowerOfTwo(k) && Double(k, n) == Split(n)
    {
      DoubleStep(k, n);
      k := k * 2;
    }
    DoubleStep(k, n);
  }

  /** RFC 6962, section 2.1: k is determined by 0 < k < n <= 2k and being a power of
      two. */
  lemma {:induction false} SplitUnique(n: nat, k: nat, l: nat)
    requires 0 < k < n <= 2 * k && PowerOfTwo(k)
    requires 0 < l < n <= 2 * l && PowerOfTwo(l)
    ensures k == l
  {
    if k < l {
      NoPowerBetween(k, l);
    } else if l < k {
      NoPowerBetween(l, k);
    }
  }

  lemma {:induction false} NoPowerBetween(k: nat, l: nat)
    requires PowerOfTwo(k) && PowerOfTwo(l) && k < l
    ensures 2 * k <= l
  {
    if k > 1 {
      NoPowerBetween(k / 2, l / 2);
    }
  }

  /** MerkleRoot. */
  function Root(leaves: seq<Digest>): Digest
    requires leaves != []
    decreases |leaves|
  {
    if |leaves| == 1 then leaves[0]
    else
      var k := Split(|leaves|);
      Sha256(NodeInput(Root(leaves[..k]), Root(leaves[k..])))
  }

  function Leaves(paes: seq<bytes>): (ls: seq<Digest>)
    ensures |ls| == |paes| && forall i :: 0 <= i < |paes| ==> ls[i] == LeafHash(paes[i])
  {
    seq(|paes|, i requires 0 <= i < |paes| => LeafHash(paes[i]))
  }

  /** The Python rail's node(lo, hi), which hashes the leaves on the way. */
  function PyNode(paes: seq<bytes>, lo: nat, hi: nat): Digest
    requires lo < hi <= |paes|
    decreases hi - lo
  {
    if hi - lo == 1 then Sha256([0] + paes[lo])
    else
      var k := Split(hi - lo);
      Sha256([1] + PyNode(paes, lo, lo + k) + PyNode(paes, lo + k, hi))
  }

  lemma {:induction false} RailsRootAlike(paes: seq<bytes>, lo: nat, hi: nat)
    requires lo < hi <= |paes|
    ensures PyNode(paes, lo, hi) == Root(Leaves(paes)[lo..hi])
    decreases hi - lo
  {
    hide Double, PowerOfTwo, Leaves, Split;
    var leaves := Leaves(paes)[lo..hi];
    if hi - lo == 1 {
      assert Leaves(paes)[lo..hi][0] == LeafHash(paes[lo]);
    } else {
      var k := Split(hi - lo);
      RailsRootAlike(paes, lo, lo + k);
      RailsRootAlike(paes, lo + k, hi);
      SliceOfSlice(Leaves(paes), lo, hi, k);
      assert Root(leaves) == Sha256(NodeInput(Root(leaves[..k]), Root(leaves[k..])));
    }
  }

  lemma SliceOfSlice(s: seq<Digest>, lo: nat, hi: nat, k: nat)
    requires lo + k <= hi <= |s|
    ensures s[lo..hi][..k] == s[lo..lo + k] && s[lo..hi][k..] == s[lo + k..hi]
  {
  }

  // ----- commitment -----

  /** Every input the root computation hashes. */
  function Inputs(paes: seq<bytes>): set<bytes>
    requires paes != []
    decreases |paes|
  {
    if |paes| == 1 then {LeafInput(paes[0])}
    else
      var k := Split(|paes|);
      {NodeInput(Root(Leaves(paes[..k])), Root(Leaves(paes[k..])))} + Inputs(paes[..k]) + Inputs(paes[k..])
  }

  /** A collision between an input of one computation and an input of the other. */
  ghost predicate Collision(a: set<bytes>, b: set<bytes>) {
    exists x, y :: x in a && y in b && Collides(x, y)
  }

  /** The input whose digest is the root. */
  function RootInput(paes: seq<bytes>): (x: bytes)
    requires paes != []
    ensures x in Inputs(paes) && Sha256(x) == Root(Leaves(paes))
  {
    if |paes| == 1 then LeafInput(paes[0])
    else
      var k := Split(|paes|);
      assert Leaves(paes)[..k] == Leaves(paes[..k]) && Leaves(paes)[k..] == Leaves(paes[k..]);
      NodeInput(Root(Leaves(paes[..k])), Root(Leaves(paes[k..])))
  }

  /** Equal roots: the same leaf inputs in the same order, for any two leaf counts, or
      a collision among what the two computations hashed. */
  lemma {:induction false} RootCommits(a: seq<bytes>, b: seq<bytes>)
    requires a != [] && b != [] && Root(Leaves(a)) == Root(Leaves(b))
    ensures a == b || Collision(Inputs(a), Inputs(b))
    decreases |a|
  {
    var x, y := RootInput(a), RootInput(b);
    if x != y {
      assert Collides(x, y);
    } else if |a| == 1 || |b| == 1 {
      assert x[0] == y[0];
      assert x[1..] == y[1..];
      assert |a| == 1 ==> x[1..] == a[0];
      assert |b| == 1 ==> y[1..] == b[0];
      assert a == b;
    } else {
      var k, l := Split(|a|), Split(|b|);
      var al, ar, bl, br := Root(Leaves(a[..k])), Root(Leaves(a[k..])), Root(Leaves(b[..l])), Root(Leaves(b[l..]));
      NodeInputInjective(al, ar, bl, br);
      RootCommits(a[..k], b[..l]);
      RootCommits(a[k..], b[l..]);
      if a[..k] == b[..l] && a[k..] == b[l..] {
        assert a == a[..k] + a[k..] && b == b[..l] + b[l..];
      } else {
        var p, q :| p in Inputs(a) && q in Inputs(b) && Collides(p, q);
      }
    }
  }

  lemma NodeInputInjective(l: Digest, r: Digest, l': Digest, r': Digest)
    requires NodeInput(l, r) == NodeInput(l', r')
    ensures l == l' && r == r'
  {
    assert l == NodeInput(l, r)[1..33] && l' == NodeInput(l', r')[1..33];
    assert r == NodeInput(l, r)[33..] && r' == NodeInput(l', r')[33..];
  }
}
