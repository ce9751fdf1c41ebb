/** The spellings of a character in a JSON string literal (RFC 8259, section 7; RFC 3629,
    section 3) in figures, what a literal's body denotes in terms of them, and which
    spelling the two writers choose. */
module Spellings {
  import opened Core
  import opened Utf8
  import opened Scan
  import opened PyJson
  import opened Literals
  import opened Syntax

  function Past(b: int, base: int): int {
    b - base
  }

  /** The UTF-8 bytes of the scalar value n. */
  predicate Bytes(n: int, t: bytes) {
    if n <= 0x7F then |t| == 1 && t[0] == n
    else if n <= 0x7FF then
      |t| == 2 && 0xC0 <= t[0] < 0xE0 && 0x80 <= t[1] < 0xC0 && n == Past(t[0], 0xC0) * 0x40 + Past(t[1], 0x80)
    else if n <= 0xFFFF then
      && |t| == 3 && 0xE0 <= t[0] < 0xF0 && 0x80 <= t[1] < 0xC0 && 0x80 <= t[2] < 0xC0
      && n == Past(t[0], 0xE0) * 0x1000 + Past(t[1], 0x80) * 0x40 + Past(t[2], 0x80)
    else
      && |t| == 4 && 0xF0 <= t[0] < 0xF8 && 0x80 <= t[1] < 0xC0 && 0x80 <= t[2] < 0xC0 && 0x80 <= t[3] < 0xC0
      && n == Past(t[0], 0xF0) * 0x40000 + Past(t[1], 0x80) * 0x1000 + Past(t[2], 0x80) * 0x40 + Past(t[3], 0x80)
  }

  predicate Raw(n: int, t: bytes) {
    n >= 0x20 && n != 0x22 && n != 0x5C && Bytes(n, t)
  }

  /** One of the eight escapes of two characters. */
  predicate Brief(n: int, t: bytes) {
    && |t| == 2 && t[0] == 0x5C
    && ((t[1] == 0x22 && n == 0x22) || (t[1] == 0x5C && n == 0x5C) || (t[1] == 0x2F && n == 0x2F)
        || (t[1] == 0x62 && n == 0x08) || (t[1] == 0x66 && n == 0x0C) || (t[1] == 0x6E && n == 0x0A)
        || (t[1] == 0x72 && n == 0x0D) || (t[1] == 0x74 && n == 0x09))
  }

  function FigureOf(b: byte): int {
    if b <= 0x39 then b - 0x30 else if b <= 0x46 then b - 0x37 else b - 0x57
  }

  /** The \u escape of n at position i. */
  predicate Escaped(n: int, t: bytes, i: nat)
    requires i + 6 <= |t|
  {
    && t[i] == 0x5C && t[i + 1] == 0x75
    && HexFigure(t[i + 2]) && HexFigure(t[i + 3]) && HexFigure(t[i + 4]) && HexFigure(t[i + 5])
    && n == FigureOf(t[i + 2]) * 0x1000 + FigureOf(t[i + 3]) * 0x100 + FigureOf(t[i + 4]) * 0x10 + FigureOf(t[i + 5])
  }

  /** Two \u escapes: n beyond U+FFFF as its surrogates. */
  predicate Surrogates(n: int, t: bytes) {
    && |t| == 12 && n >= 0x10000
    && Escaped(0xD800 + (n - 0x10000) / 0x400, t, 0) && Escaped(0xDC00 + (n - 0x10000) % 0x400, t, 6)
  }

  predicate Spelling(c: char, t: bytes) {
    var n := c as int;
    Raw(n, t) || Brief(n, t) || (|t| == 6 && Escaped(n, t, 0)) || Surrogates(n, t)
  }

  /** b is a spelling of each character of s in turn. */
  ghost predicate Spells(b: bytes, s: string)
    decreases |s|
  {
    if s == [] then b == []
    else exists k :: 0 <= k <= |b| && Spelling(s[0], b[..k]) && Spells(b[k..], s[1..])
  }

  // ----- spellings are the units of the scanners -----

  lemma FigureIs(b: byte)
    ensures HexFigure(b) <==> HexValue(b).Some?
    ensures HexFigure(b) ==> HexValue(b) == Some(FigureOf(b))
  {
  }

  lemma FourAre(h: bytes)
    requires |h| == 4
    ensures Hex4(h).Some? <==> HexFigure(h[0]) && HexFigure(h[1]) && HexFigure(h[2]) && HexFigure(h[3])
    ensures Hex4(h).Some? ==>
              Hex4(h).value == FigureOf(h[0]) * 0x1000 + FigureOf(h[1]) * 0x100 + FigureOf(h[2]) * 0x10 + FigureOf(h[3])
  {
    hide HexFigure, FigureOf, HexValue;
    FigureIs(h[0]);
    FigureIs(h[1]);
    FigureIs(h[2]);
    FigureIs(h[3]);
  }

  lemma EscapedIs(t: bytes, i: nat, h: bytes)
    requires i + 6 <= |t| && t[i] == 0x5C && t[i + 1] == 0x75 && h == t[i + 2..i + 6]
    ensures forall n :: Escaped(n, t, i) <==> Hex4(h) == Some(n)
  {
    hide HexFigure, FigureOf, Hex4;
    FourAre(h);
    assert h[0] == t[i + 2] && h[1] == t[i + 3] && h[2] == t[i + 4] && h[3] == t[i + 5];
  }

  /** The figures of n to base 64. */
  lemma Sixes(n: int, a: int, b: int, c: int, d: int)
    requires 0 <= b < 64 && 0 <= c < 64 && 0 <= d < 64
    ensures n == a * 0x40 + d <==> n / 64 == a && n % 64 == d
    ensures n == a * 0x1000 + c * 0x40 + d <==> n / 4096 == a && n / 64 % 64 == c && n % 64 == d
    ensures n == a * 0x40000 + b * 0x1000 + c * 0x40 + d
            <==> n / 262144 == a && n / 4096 % 64 == b && n / 64 % 64 == c && n % 64 == d
  {
    assert n / 64 / 64 == n / 4096 && n / 4096 / 64 == n / 262144;
    assert n == n / 64 * 64 + n % 64;
    assert n / 64 == n / 4096 * 64 + n / 64 % 64;
    assert n / 4096 == n / 262144 * 64 + n / 4096 % 64;
  }

  lemma EncodeIs(c: char, t: bytes)
    ensures Bytes(c as int, t) <==> t == Encode(c)
  {
    hide Past;
    EncodeHas(c);
    if Bytes(c as int, t) {
      BytesOnce(c, t);
    }
  }

  lemma EncodeHas(c: char)
    ensures Bytes(c as int, Encode(c))
  {
    var n := c as int;
    Sixes(n, n / 64, 0, 0, n % 64);
    Sixes(n, n / 4096, 0, n / 64 % 64, n % 64);
    Sixes(n, n / 262144, n / 4096 % 64, n / 64 % 64, n % 64);
  }

  lemma BytesOnce(c: char, t: bytes)
    requires Bytes(c as int, t)
    ensures t == Encode(c)
  {
    var n := c as int;
    if n <= 0x7F {
    } else if n <= 0x7FF {
      Sixes(n, Past(t[0], 0xC0), 0, 0, Past(t[1], 0x80));
    } else if n <= 0xFFFF {
      Sixes(n, Past(t[0], 0xE0), 0, Past(t[1], 0x80), Past(t[2], 0x80));
    } else {
      Sixes(n, Past(t[0], 0xF0), Past(t[1], 0x80), Past(t[2], 0x80), Past(t[3], 0x80));
    }
  }

  lemma UnitSpells(u: Unit)
    requires UnitOk(u)
    ensures Spelling(UnitChar(u), UnitText(u))
  {
    hide Hex4, HexFigure, FigureOf, Encode;
    var t := UnitText(u);
    match u
    case Plain(c) =>
      EncodeIs(c, t);
    case Short(e) =>
    case Hex(h) =>
      EscapedIs(t, 0, h);
    case Pair(hi, lo) =>
      EscapedIs(t, 0, hi);
      EscapedIs(t, 6, lo);
  }

  lemma SpellingIsUnit(c: char, t: bytes) returns (u: Unit)
    requires Spelling(c, t)
    ensures UnitOk(u) && UnitChar(u) == c && UnitText(u) == t
  {
    hide Hex4, HexFigure, FigureOf, Encode, Bytes;
    var n := c as int;
    if Raw(n, t) {
      EncodeIs(c, t);
      u := Plain(c);
    } else if Brief(n, t) {
      u := Short(t[1]);
    } else if |t| == 6 && Escaped(n, t, 0) {
      u := Unit.Hex(t[2..6]);
      EscapedIs(t, 0, t[2..6]);
    } else {
      u := Pair(t[2..6], t[8..12]);
      EscapedIs(t, 0, t[2..6]);
      EscapedIs(t, 6, t[8..12]);
    }
  }

  lemma {:induction false} UnitsSpell(us: seq<Unit>)
    requires UnitsOk(us)
    ensures Spells(Text(us), Chars(us))
  {
    hide UnitOk, UnitText, UnitChar, Spelling;
    if us != [] {
      UnitSpells(us[0]);
      UnitsSpell(us[1..]);
      var b, k := Text(us), |UnitText(us[0])|;
      assert b[..k] == UnitText(us[0]) && b[k..] == Text(us[1..]);
      assert Chars(us)[1..] == Chars(us[1..]);
    }
  }

  lemma {:induction false} SpellsUnits(b: bytes, s: string) returns (us: seq<Unit>)
    requires Spells(b, s)
    ensures UnitsOk(us) && Text(us) == b && Chars(us) == s
    decreases |s|
  {
    hide UnitOk, UnitText, UnitChar, Spelling;
    if s == [] {
      us := [];
    } else {
      var k :| 0 <= k <= |b| && Spelling(s[0], b[..k]) && Spells(b[k..], s[1..]);
      var u := SpellingIsUnit(s[0], b[..k]);
      var more := SpellsUnits(b[k..], s[1..]);
      us := [u] + more;
      assert us[1..] == more && b == b[..k] + b[k..];
    }
  }

  /** A body denotes the strings it spells, and the decoder reads the string it spells. */
  lemma DenotesPlainly(b: bytes, s: string)
    ensures Denotes(b, s) <==> Spells(b, s)
    ensures Spells(b, s) ==> Unquote(b) == s
  {
    hide UnitsOk, Text, Chars, Spells, Unquote;
    if Denotes(b, s) {
      var us :| UnitsOk(us) && Text(us) == b && Chars(us) == s;
      UnitsSpell(us);
    }
    if Spells(b, s) {
      var us := SpellsUnits(b, s);
      UnquoteUnits(us);
      assert Denotes(b, s);
    }
  }

  /** RFC 7493, section 2.1: U+FDD0 to U+FDEF and the last two code points of each of the
      seventeen planes. */
  predicate Forbidden(c: char) {
    var n := c as int;
    || 0xFDD0 <= n <= 0xFDEF
    || n in {0xFFFE, 0xFFFF, 0x1FFFE, 0x1FFFF, 0x2FFFE, 0x2FFFF, 0x3FFFE, 0x3FFFF, 0x4FFFE, 0x4FFFF, 0x5FFFE, 0x5FFFF,
             0x6FFFE, 0x6FFFF, 0x7FFFE, 0x7FFFF, 0x8FFFE, 0x8FFFF, 0x9FFFE, 0x9FFFF, 0xAFFFE, 0xAFFFF, 0xBFFFE, 0xBFFFF,
             0xCFFFE, 0xCFFFF, 0xDFFFE, 0xDFFFF, 0xEFFFE, 0xEFFFF, 0xFFFFE, 0xFFFFF, 0x10FFFE, 0x10FFFF}
  }

  lemma ForbiddenIs(c: char)
    ensures Noncharacter(c as int) <==> Forbidden(c)
  {
    var n := c as int;
    var plane, low := n / 0x10000, n % 0x10000;
    assert n == plane * 0x10000 + low && 0 <= plane <= 16;
  }

  /** The literals the scan of a document takes are those whose body spells characters
      that are not forbidden. */
  lemma ScalarsPlainly(body: bytes)
    ensures Scalars(body) <==> exists s: string :: Spells(body, s) && forall i :: 0 <= i < |s| ==> !Forbidden(s[i])
  {
    hide Denotes, Spells, Forbidden, Noncharacter;
    if Scalars(body) {
      var s :| Clean(s) && Denotes(body, s);
      DenotesPlainly(body, s);
      forall i | 0 <= i < |s| ensures !Forbidden(s[i]) {
        ForbiddenIs(s[i]);
      }
    }
    if s: string :| Spells(body, s) && forall i :: 0 <= i < |s| ==> !Forbidden(s[i]) {
      DenotesPlainly(body, s);
      forall i | 0 <= i < |s| ensures !Noncharacter(s[i] as int) {
        ForbiddenIs(s[i]);
      }
      assert Clean(s);
    }
  }

  // ----- which spelling is written -----

  /** No hexadecimal figure is a capital. */
  predicate Lower(t: bytes) {
    |t| >= 6 ==> forall i :: 0 <= i < |t| ==> !(0x41 <= t[i] <= 0x46)
  }

  lemma LastFigure(a: int, d: int, a': int, d': int)
    requires 0 <= d < 16 && 0 <= d' < 16 && a * 0x10 + d == a' * 0x10 + d'
    ensures a == a' && d == d'
  {
  }

  lemma FourFigures(a: int, b: int, c: int, d: int, a': int, b': int, c': int, d': int)
    requires 0 <= b < 16 && 0 <= c < 16 && 0 <= d < 16 && 0 <= b' < 16 && 0 <= c' < 16 && 0 <= d' < 16
    requires a * 0x1000 + b * 0x100 + c * 0x10 + d == a' * 0x1000 + b' * 0x100 + c' * 0x10 + d'
    ensures a == a' && b == b' && c == c' && d == d'
  {
    LastFigure(a * 0x100 + b * 0x10 + c, d, a' * 0x100 + b' * 0x10 + c', d');
    LastFigure(a * 0x10 + b, c, a' * 0x10 + b', c');
    LastFigure(a, b, a', b');
  }

  lemma FiguresOnce(n: int, t: bytes, u: bytes, i: nat)
    requires i + 6 <= |t| && i + 6 <= |u| && Lower(t) && Lower(u) && Escaped(n, t, i) && Escaped(n, u, i)
    ensures t[i..i + 6] == u[i..i + 6]
  {
    hide FigureOf, HexFigure;
    FigureOnce(t[i + 2], u[i + 2]);
    FigureOnce(t[i + 3], u[i + 3]);
    FigureOnce(t[i + 4], u[i + 4]);
    FigureOnce(t[i + 5], u[i + 5]);
    FourFigures(FigureOf(t[i + 2]), FigureOf(t[i + 3]), FigureOf(t[i + 4]), FigureOf(t[i + 5]),
      FigureOf(u[i + 2]), FigureOf(u[i + 3]), FigureOf(u[i + 4]), FigureOf(u[i + 5]));
  }

  lemma FigureOnce(a: byte, b: byte)
    requires HexFigure(a) && HexFigure(b)
    ensures 0 <= FigureOf(a) < 16 && 0 <= FigureOf(b) < 16
    ensures FigureOf(a) == FigureOf(b) && !(0x41 <= a <= 0x46) && !(0x41 <= b <= 0x46) ==> a == b
  {
  }

  lemma HexByteLower(d: int)
    requires 0 <= d < 16
    ensures HexFigure(HexByte(d)) && !(0x41 <= HexByte(d) <= 0x46)
  {
  }

  /** RFC 8785, section 3.2.2.2: of all spellings of a character the canonical writer
      takes the shortest, its figures in lower case; there is one. */
  lemma CanonicalIsShortest(c: char, t: bytes)
    requires Spelling(c, t)
    ensures Spelling(c, JcsChar(c)) && Lower(JcsChar(c)) && |JcsChar(c)| <= |t|
    ensures Lower(t) && |t| <= |JcsChar(c)| ==> t == JcsChar(c)
  {
    hide Escaped, Bytes, HexByte;
    var n := c as int;
    UnitSpells(JcsUnit(c));
    EncodeIs(c, Encode(c));
    if n < 0x20 {
      HexByteLower(n / 16);
      HexByteLower(n % 16);
    }
    if Raw(n, t) {
      EncodeIs(c, t);
    } else if Lower(t) && |t| == 6 && |JcsChar(c)| == 6 && Escaped(n, t, 0) {
      FiguresOnce(n, t, JcsChar(c), 0);
    }
  }

  /** Printable ASCII. */
  predicate Printable(t: bytes) {
    forall i :: 0 <= i < |t| ==> 0x20 <= t[i] < 0x7F
  }

  /** CPython's ensure_ascii, as writePythonString copies it: of all spellings in printable
      ASCII the shortest, its figures in lower case; there is one. */
  lemma AsciiIsShortest(c: char, t: bytes)
    requires Spelling(c, t) && Printable(t)
    ensures var u := PyChar(c, true);
            Spelling(c, u) && Lower(u) && Printable(u) && |u| <= |t| && (Lower(t) && |t| <= |u| ==> t == u)
  {
    hide Escaped, Bytes, Encode, HexByte, Lower, Printable, PyUnit, UnitText, HexFour;
    var n := c as int;
    var u := PyChar(c, true);
    UnitSpells(PyUnit(c, true));
    EncodeIs(c, t);
    AsciiWritten(c);
    SpellingLengths(c, t);
    SpellingLengths(c, u);
    if Raw(n, t) {
      RawPrintable(c, t);
    } else if Lower(t) && |t| == 6 && |u| == 6 && Escaped(n, t, 0) {
      FiguresOnce(n, t, u, 0);
      assert t == t[0..6] && u == u[0..6];
    } else if Lower(t) && Surrogates(n, t) && |u| == 12 {
      FiguresOnce(0xD800 + (n - 0x10000) / 0x400, t, u, 0);
      FiguresOnce(0xDC00 + (n - 0x10000) % 0x400, t, u, 6);
      assert t == t[0..6] + t[6..12] && u == u[0..6] + u[6..12];
    }
  }

  lemma SpellingLengths(c: char, t: bytes)
    ensures Raw(c as int, t) ==> |t| <= 4
    ensures |t| == 6 && Escaped(c as int, t, 0) ==> c as int < 0x10000
  {
  }

  lemma RawPrintable(c: char, t: bytes)
    requires Raw(c as int, t) && Printable(t)
    ensures c as int < 0x7F
  {
    assert t[0] < 0x7F;
  }

  lemma AsciiWritten(c: char)
    ensures var n, u := c as int, PyChar(c, true);
            && Lower(u) && Printable(u)
            && (if n < 0x7F && n >= 0x20 && n != 0x22 && n != 0x5C then u == Encode(c) && |u| == 1
                else if n in {0x22, 0x5C, 8, 9, 10, 12, 13} then |u| == 2
                else |u| == if n < 0x10000 then 6 else 12)
  {
    hide HexByte, HexFour, Encode;
    var n := c as int;
    if n >= 0x10000 {
      var hi, lo := 0xD800 + (n - 0x10000) / 1024, 0xDC00 + (n - 0x10000) % 1024;
      assert PyUnit(c, true) == Pair(HexFour(hi), HexFour(lo));
      EscapeLower(HexFour(hi), hi);
      EscapeLower(HexFour(lo), lo);
      var first, second := [BACKSLASH, 0x75] + HexFour(hi), [BACKSLASH, 0x75] + HexFour(lo);
      assert PyChar(c, true) == first + second;
    } else if PyUnit(c, true).Hex? {
      EscapeLower(HexFour(n), n);
    } else if PyUnit(c, true).Plain? {
      OneByte(c);
    }
  }

  lemma OneByte(c: char)
    requires 0x20 <= c as int < 0x7F
    ensures Encode(c) == [c as int]
  {
  }

  lemma EscapeLower(h: bytes, n: int)
    requires 0 <= n < 0x10000 && h == HexFour(n)
    ensures var t := [BACKSLASH, 0x75] + h; |t| == 6 && Printable(t) && Lower(t)
  {
    hide HexFour;
    FourLower(n);
  }

  lemma FourLower(n: int)
    requires 0 <= n < 0x10000
    ensures forall i :: 0 <= i < 4 ==> HexFigure(HexFour(n)[i]) && !(0x41 <= HexFour(n)[i] <= 0x46)
  {
    HexByteLower(n / 4096);
    HexByteLower(n / 256 % 16);
    HexByteLower(n / 16 % 16);
    HexByteLower(n % 16);
  }
}
