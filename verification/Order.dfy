/** The orders on strings: UTF-16 code units (RFC 8785, section 3.2.3), Unicode code
    points, and UTF-8 bytes; sorting by the first of them. */
module Order {
  import Utf8

  // ----- lexicographic order -----

  predicate LexLess(a: seq<int>, b: seq<int>) {
    if b == [] then false
    else if a == [] then true
    else if a[0] != b[0] then a[0] < b[0]
    else LexLess(a[1..], b[1..])
  }

  lemma {:induction false} LexTrichotomy(a: seq<int>, b: seq<int>)
    ensures !(LexLess(a, b) && LexLess(b, a))
    ensures a == b <==> !LexLess(a, b) && !LexLess(b, a)
  {
    if a != [] && b != [] {
      LexTrichotomy(a[1..], b[1..]);
      assert a == [a[0]] + a[1..] && b == [b[0]] + b[1..];
    }
  }

  lemma {:induction false} LexTransitive(a: seq<int>, b: seq<int>, c: seq<int>)
    requires LexLess(a, b) && LexLess(b, c)
    ensures LexLess(a, c)
  {
    if a != [] && b != [] && c != [] {
      if a[0] == b[0] == c[0] {
        LexTransitive(a[1..], b[1..], c[1..]);
      }
    }
  }

  lemma {:induction false} LexCommonPrefix(p: seq<int>, a: seq<int>, b: seq<int>)
    ensures LexLess(p + a, p + b) == LexLess(a, b)
  {
    if p == [] {
      assert p + a == a && p + b == b;
    } else {
      assert (p + a)[1..] == p[1..] + a && (p + b)[1..] == p[1..] + b;
      LexCommonPrefix(p[1..], a, b);
    }
  }

  // ----- UTF-16 -----

  function Units(c: char): (us: seq<int>)
    ensures 1 <= |us| <= 2
  {
    var n := c as int;
    if n < 0x10000 then [n] else [0xD800 + (n - 0x10000) / 1024, 0xDC00 + (n - 0x10000) % 1024]
  }

  /** utf16.Encode. */
  function Utf16(s: string): seq<int> {
    if s == [] then [] else Units(s[0]) + Utf16(s[1..])
  }

  predicate Utf16Less(a: string, b: string) {
    LexLess(Utf16(a), Utf16(b))
  }

  /** The comparison loop of utf16Less. */
  method CompareUtf16(a: string, b: string) returns (less: bool)
    ensures less == Utf16Less(a, b)
  {
    var ua, ub := Utf16(a), Utf16(b);
    var n := if |ub| < |ua| then |ub| else |ua|;
    for i := 0 to n
      invariant LexLess(ua, ub) == LexLess(ua[i..], ub[i..])
    {
      if ua[i] != ub[i] {
        return ua[i] < ub[i];
      }
      assert ua[i..][1..] == ua[i + 1..] && ub[i..][1..] == ub[i + 1..];
    }
    return |ua| < |ub|;
  }

  lemma {:induction false} Utf16Injective(a: string, b: string)
    requires Utf16(a) == Utf16(b)
    ensures a == b
  {
    if a != [] && b != [] {
      var x, y := Utf16(a), Utf16(b);
      assert x[0] == Units(a[0])[0] && y[0] == Units(b[0])[0];
      assert |Units(a[0])| == 2 ==> x[1] == Units(a[0])[1];
      assert |Units(b[0])| == 2 ==> y[1] == Units(b[0])[1];
      assert a[0] == b[0];
      assert x[|Units(a[0])|..] == Utf16(a[1..]) && y[|Units(b[0])|..] == Utf16(b[1..]);
      Utf16Injective(a[1..], b[1..]);
      assert a == [a[0]] + a[1..] && b == [b[0]] + b[1..];
    }
  }

  /** utf16Less is a strict total order on strings of scalar values. */
  lemma Utf16LessTotal(a: string, b: string)
    ensures !(Utf16Less(a, b) && Utf16Less(b, a))
    ensures a == b <==> !Utf16Less(a, b) && !Utf16Less(b, a)
  {
    LexTrichotomy(Utf16(a), Utf16(b));
    if Utf16(a) == Utf16(b) {
      Utf16Injective(a, b);
    }
  }

  lemma Utf16LessTransitive(a: string, b: string, c: string)
    requires Utf16Less(a, b) && Utf16Less(b, c)
    ensures Utf16Less(a, c)
  {
    LexTransitive(Utf16(a), Utf16(b), Utf16(c));
  }

  /** utf-16-be: the units' high and low bytes. */
  function BigEndian(us: seq<int>): seq<int> {
    if us == [] then [] else [us[0] / 256, us[0] % 256] + BigEndian(us[1..])
  }

  /** The Python rail sorts by UTF-16 big-endian bytes; that is the unit order. */
  lemma {:induction false} RailsSortAlike(us: seq<int>, vs: seq<int>)
    ensures LexLess(BigEndian(us), BigEndian(vs)) == LexLess(us, vs)
  {
    if us != [] && vs != [] {
      var a, b := BigEndian(us), BigEndian(vs);
      RailsSortAlike(us[1..], vs[1..]);
      assert a[1..][1..] == BigEndian(us[1..]) && b[1..][1..] == BigEndian(vs[1..]);
      assert a[1..][0] == us[0] % 256 && b[1..][0] == vs[0] % 256;
      Halves(us[0], vs[0]);
    }
  }

  /** Numbers compare by their upper part first, then by the low byte. */
  lemma Halves(n: int, m: int)
    ensures n < m <==> n / 256 < m / 256 || (n / 256 == m / 256 && n % 256 < m % 256)
    ensures n == m <==> n / 256 == m / 256 && n % 256 == m % 256
  {
  }

  // ----- the three orders compared -----

  function Points(s: string): seq<int> {
    if s == [] then [] else [s[0] as int] + Points(s[1..])
  }

  /** Python's str comparison. */
  predicate PointLess(a: string, b: string) {
    LexLess(Points(a), Points(b))
  }

  /** Go's string comparison, bytewise over UTF-8. */
  predicate ByteLess(a: string, b: string) {
    LexLess(Utf8.EncodeString(a), Utf8.EncodeString(b))
  }

  /** isBMPOnly. */
  predicate BmpOnly(s: string) {
    forall i :: 0 <= i < |s| ==> s[i] as int <= 0xFFFF
  }

  /** One character decides both ways, unless it is a supplementary one against one
      in U+E000..U+FFFF. */
  predicate Splits(c: char, d: char) {
    c as int > 0xFFFF && 0xE000 <= d as int <= 0xFFFF
  }

  /** The first position where the strings differ pits a supplementary character
      against one of U+E000..U+FFFF. */
  predicate FirstDifferenceSplits(a: string, b: string) {
    a != [] && b != [] &&
    if a[0] == b[0] then FirstDifferenceSplits(a[1..], b[1..]) else Splits(a[0], b[0]) || Splits(b[0], a[0])
  }

  /** UTF-16 order and code-point order disagree on exactly these pairs. */
  lemma {:induction false} OrdersDisagreeExactly(a: string, b: string)
    ensures (Utf16Less(a, b) != PointLess(a, b)) <==> FirstDifferenceSplits(a, b)
  {
    if a != [] && b != [] {
      if a[0] == b[0] {
        LexCommonPrefix(Units(a[0]), Utf16(a[1..]), Utf16(b[1..]));
        LexCommonPrefix([a[0] as int], Points(a[1..]), Points(b[1..]));
        OrdersDisagreeExactly(a[1..], b[1..]);
      } else {
        UnitsOrder(a[0], Utf16(a[1..]), b[0], Utf16(b[1..]));
      }
    }
  }

  lemma UnitsOrder(c: char, s: seq<int>, d: char, t: seq<int>)
    requires c != d
    ensures LexLess(Units(c) + s, Units(d) + t) ==
            if Splits(c, d) then true else if Splits(d, c) then false else c < d
  {
    var x, y := Units(c) + s, Units(d) + t;
    assert x[0] == Units(c)[0] && y[0] == Units(d)[0];
    if |Units(c)| == |Units(d)| == 2 && x[0] == y[0] {
      assert x[1..][0] == Units(c)[1] && y[1..][0] == Units(d)[1];
    }
  }

  /** On BMP-only names the orders coincide. */
  lemma {:induction false} BmpOrdersCoincide(a: string, b: string)
    requires BmpOnly(a) && BmpOnly(b)
    ensures Utf16Less(a, b) == PointLess(a, b)
  {
    OrdersDisagreeExactly(a, b);
    BmpNeverSplits(a, b);
  }

  lemma {:induction false} BmpNeverSplits(a: string, b: string)
    requires BmpOnly(a) && BmpOnly(b)
    ensures !FirstDifferenceSplits(a, b)
  {
    if a != [] && b != [] {
      BmpNeverSplits(a[1..], b[1..]);
    }
  }

  /** UTF-8 byte order is code-point order, on every string. */
  lemma {:induction false} ByteOrderIsPointOrder(a: string, b: string)
    ensures ByteLess(a, b) == PointLess(a, b)
  {
    if a != [] && b != [] {
      if a[0] == b[0] {
        LexCommonPrefix(Utf8.Encode(a[0]), Utf8.EncodeString(a[1..]), Utf8.EncodeString(b[1..]));
        LexCommonPrefix([a[0] as int], Points(a[1..]), Points(b[1..]));
        ByteOrderIsPointOrder(a[1..], b[1..]);
      } else {
        EncodeOrder(a[0], Utf8.EncodeString(a[1..]), b[0], Utf8.EncodeString(b[1..]));
      }
    }
  }

  lemma EncodeOrder(c: char, s: seq<int>, d: char, t: seq<int>)
    requires c != d
    ensures LexLess(Utf8.Encode(c) + s, Utf8.Encode(d) + t) == (c < d)
  {
    var e, f := Utf8.Encode(c), Utf8.Encode(d);
    if |e| == |f| {
      SameLengthEncodings(c, d);
      if e == f {
        Utf8.DecodeEncoded(c, []);
        Utf8.DecodeEncoded(d, []);
      }
      LexSameLength(e, s, f, t);
    } else {
      assert (e + s)[0] == e[0] && (f + t)[0] == f[0];
    }
  }

  lemma SameLengthEncodings(c: char, d: char)
    requires c != d && |Utf8.Encode(c)| == |Utf8.Encode(d)|
    ensures LexLess(Utf8.Encode(c), Utf8.Encode(d)) == (c < d)
  {
    var n, m := c as int, d as int;
    if n < 0x80 {
    } else if n < 0x800 {
      TwoByteOrder(n, m);
    } else if n < 0x10000 {
      ThreeByteOrder(n, m);
    } else {
      FourByteOrder(n, m);
    }
  }

  lemma TwoByteOrder(n: nat, m: nat)
    ensures LexLess([0xC0 + n / 64, 0x80 + n % 64], [0xC0 + m / 64, 0x80 + m % 64]) == (n < m)
  {
    LexFour([0xC0 + n / 64, 0x80 + n % 64], [0xC0 + m / 64, 0x80 + m % 64]);
    Sixes(n, m);
  }

  lemma ThreeByteOrder(n: nat, m: nat)
    ensures LexLess([0xE0 + n / 4096, 0x80 + n / 64 % 64, 0x80 + n % 64],
                    [0xE0 + m / 4096, 0x80 + m / 64 % 64, 0x80 + m % 64]) == (n < m)
  {
    LexFour([0xE0 + n / 4096, 0x80 + n / 64 % 64, 0x80 + n % 64],
            [0xE0 + m / 4096, 0x80 + m / 64 % 64, 0x80 + m % 64]);
    Sixes(n, m);
    Sixes(n / 64, m / 64);
    assert n / 64 / 64 == n / 4096 && m / 64 / 64 == m / 4096;
  }

  lemma FourByteOrder(n: nat, m: nat)
    ensures LexLess([0xF0 + n / 262144, 0x80 + n / 4096 % 64, 0x80 + n / 64 % 64, 0x80 + n % 64],
                    [0xF0 + m / 262144, 0x80 + m / 4096 % 64, 0x80 + m / 64 % 64, 0x80 + m % 64]) == (n < m)
  {
    LexFour([0xF0 + n / 262144, 0x80 + n / 4096 % 64, 0x80 + n / 64 % 64, 0x80 + n % 64],
            [0xF0 + m / 262144, 0x80 + m / 4096 % 64, 0x80 + m / 64 % 64, 0x80 + m % 64]);
    Sixes(n, m);
    Sixes(n / 64, m / 64);
    Sixes(n / 4096, m / 4096);
    assert n / 64 / 64 == n / 4096 && m / 64 / 64 == m / 4096;
    assert n / 4096 / 64 == n / 262144 && m / 4096 / 64 == m / 262144;
  }

  /** Numbers compare by their upper part first, then by the last six bits. */
  lemma Sixes(n: int, m: int)
    ensures n < m <==> n / 64 < m / 64 || (n / 64 == m / 64 && n % 64 < m % 64)
    ensures n == m <==> n / 64 == m / 64 && n % 64 == m % 64
  {
  }

  lemma {:induction false} LexSameLength(e: seq<int>, s: seq<int>, f: seq<int>, t: seq<int>)
    requires |e| == |f| && e != f
    ensures LexLess(e + s, f + t) == LexLess(e, f)
  {
    if e[0] == f[0] {
      assert e == [e[0]] + e[1..] && f == [f[0]] + f[1..];
      assert (e + s)[1..] == e[1..] + s && (f + t)[1..] == f[1..] + t;
      LexSameLength(e[1..], s, f[1..], t);
    }
  }

  /** LexLess unrolled on up to four entries. */
  lemma LexFour(e: seq<int>, f: seq<int>)
    requires 1 <= |e| == |f| <= 4
    ensures LexLess(e, f) == if e[0] != f[0] then e[0] < f[0]
                             else if |e| == 1 then false
                             else if e[1] != f[1] then e[1] < f[1]
                             else if |e| == 2 then false
                             else if e[2] != f[2] then e[2] < f[2]
                             else if |e| == 3 then false
                             else e[3] < f[3]
    decreases |e|
  {
    if |e| > 1 {
      LexFour(e[1..], f[1..]);
    }
  }

  /** A pair on which they do differ. */
  lemma OrdersDiffer()
    ensures Utf16Less("\U{1F600}", "\U{FB33}") && !PointLess("\U{1F600}", "\U{FB33}")
  {
    OrdersDisagreeExactly("\U{1F600}", "\U{FB33}");
    UnitsOrder('\U{1F600}', Utf16([]), '\U{FB33}', Utf16([]));
    assert "\U{1F600}"[1..] == [] && "\U{FB33}"[1..] == [];
  }

  // ----- sorted, duplicate-free arrays -----

  predicate StrictlyAscending(ss: seq<string>) {
    forall i, j :: 0 <= i < j < |ss| ==> Utf16Less(ss[i], ss[j])
  }

  predicate AdjacentAscending(ss: seq<string>) {
    forall i :: 1 <= i < |ss| ==> Utf16Less(ss[i - 1], ss[i])
  }

  /** isSortedNoDuplicates compares neighbours; that fixes the whole order. */
  method IsSortedNoDuplicates(ss: seq<string>) returns (ok: bool)
    ensures ok == StrictlyAscending(ss)
  {
    AdjacentIsGlobal(ss);
    var i := 1;
    while i < |ss|
      invariant 1 <= i
      invariant forall k :: 1 <= k < i && k < |ss| ==> Utf16Less(ss[k - 1], ss[k])
    {
      var less := CompareUtf16(ss[i - 1], ss[i]);
      if !less {
        return false;
      }
      i := i + 1;
    }
    return true;
  }

  lemma {:induction false} AdjacentIsGlobal(ss: seq<string>)
    ensures AdjacentAscending(ss) <==> StrictlyAscending(ss)
  {
    if AdjacentAscending(ss) {
      forall i, j | 0 <= i < j < |ss| ensures Utf16Less(ss[i], ss[j]) {
        AscendingBetween(ss, i, j);
      }
    }
  }

  lemma {:induction false} AscendingBetween(ss: seq<string>, i: nat, j: nat)
    requires AdjacentAscending(ss) && i < j < |ss|
    ensures Utf16Less(ss[i], ss[j])
    decreases j
  {
    if i < j - 1 {
      AscendingBetween(ss, i, j - 1);
      Utf16LessTransitive(ss[i], ss[j - 1], ss[j]);
    }
  }

  lemma AscendingDistinct(ss: seq<string>)
    requires StrictlyAscending(ss)
    ensures forall i, j :: 0 <= i < j < |ss| ==> ss[i] != ss[j]
  {
    forall i, j | 0 <= i < j < |ss| ensures ss[i] != ss[j] {
      Utf16LessTotal(ss[i], ss[j]);
    }
  }

  /** A set of strings has one ascending listing. */
  lemma {:induction false} AscendingUnique(a: seq<string>, b: seq<string>)
    requires StrictlyAscending(a) && StrictlyAscending(b)
    requires forall x :: x in a <==> x in b
    ensures a == b
  {
    assert a != [] ==> a[0] in a;
    assert b != [] ==> b[0] in b;
    if a != [] && b != [] {
      AscendingDistinct(a);
      AscendingDistinct(b);
      HeadLeast(a, b[0]);
      HeadLeast(b, a[0]);
      Utf16LessTotal(a[0], b[0]);
      forall x ensures x in a[1..] <==> x in b[1..] {
        TailMembers(a, x);
        TailMembers(b, x);
      }
      AscendingUnique(a[1..], b[1..]);
      assert a == [a[0]] + a[1..] && b == [b[0]] + b[1..];
    }
  }

  lemma HeadLeast(a: seq<string>, x: string)
    requires StrictlyAscending(a) && x in a
    ensures a[0] == x || Utf16Less(a[0], x)
  {
  }

  lemma TailMembers(a: seq<string>, x: string)
    requires a != [] && forall i, j :: 0 <= i < j < |a| ==> a[i] != a[j]
    ensures x in a[1..] <==> x in a && x != a[0]
  {
    if x in a && x != a[0] {
      var i :| 0 <= i < |a| && a[i] == x;
      assert a[1..][i - 1] == x;
    }
  }
}
