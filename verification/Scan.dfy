/** JSON string literals as bytes: what they denote, the two scanners that check
    them, the substituting decoder, and the canonical writer.

    Every function here works on the bytes after the opening quote. */
module Scan {
  import opened Core
  import opened Utf8

  const QUOTE: byte := 0x22
  const BACKSLASH: byte := 0x5C

  // ----- what a literal denotes -----

  /** One piece of a literal's body: a raw scalar value, a two-character escape, a
      \u escape, or a surrogate pair of two \u escapes. */
  datatype Unit =
    | Plain(c: char)
    | Short(e: byte)
    | Hex(h: bytes)
    | Pair(hi: bytes, lo: bytes)

  function HexValue(b: byte): (v: Option<int>)
    ensures v.Some? ==> 0 <= v.value < 16
  {
    if 0x30 <= b <= 0x39 then Some(b - 0x30)
    else if 0x61 <= b <= 0x66 then Some(b - 0x61 + 10)
    else if 0x41 <= b <= 0x46 then Some(b - 0x41 + 10)
    else None
  }

  /** hex4: the value of the four hexadecimal digits at the front. */
  function Hex4(b: bytes): (v: Option<int>)
    ensures v.Some? ==> |b| >= 4 && 0 <= v.value < 0x10000
  {
    if |b| < 4 || HexValue(b[0]).None? || HexValue(b[1]).None? || HexValue(b[2]).None? || HexValue(b[3]).None?
    then None
    else Some(4096 * HexValue(b[0]).value + 256 * HexValue(b[1]).value + 16 * HexValue(b[2]).value + HexValue(b[3]).value)
  }

  predicate HighSurrogate(n: int) {
    0xD800 <= n < 0xDC00
  }

  predicate LowSurrogate(n: int) {
    0xDC00 <= n < 0xE000
  }

  function Combine(hi: int, lo: int): int {
    0x10000 + (hi - 0xD800) * 1024 + (lo - 0xDC00)
  }

  /** The character of a two-character escape (RFC 8259, section 7). */
  function ShortChar(e: byte): Option<char> {
    if e == 0x22 then Some('\"') else if e == 0x5C then Some('\\') else if e == 0x2F then Some('/')
    else if e == 0x62 then Some(8 as char) else if e == 0x66 then Some(12 as char)
    else if e == 0x6E then Some(10 as char) else if e == 0x72 then Some(13 as char)
    else if e == 0x74 then Some(9 as char) else None
  }

  predicate UnitOk(u: Unit) {
    match u
    case Plain(c) => c as int >= 0x20 && c != '\"' && c != '\\'
    case Short(e) => ShortChar(e).Some?
    case Hex(h) => |h| == 4 && Hex4(h).Some? && !(0xD800 <= Hex4(h).value < 0xE000)
    case Pair(hi, lo) => |hi| == 4 && Hex4(hi).Some? && HighSurrogate(Hex4(hi).value)
                         && |lo| == 4 && Hex4(lo).Some? && LowSurrogate(Hex4(lo).value)
  }

  function UnitText(u: Unit): (t: bytes) {
    match u
    case Plain(c) => Encode(c)
    case Short(e) => [BACKSLASH, e]
    case Hex(h) => [BACKSLASH, 0x75] + h
    case Pair(hi, lo) => [BACKSLASH, 0x75] + hi + [BACKSLASH, 0x75] + lo
  }

  function UnitChar(u: Unit): char
    requires UnitOk(u)
  {
    match u
    case Plain(c) => c
    case Short(e) => ShortChar(e).value
    case Hex(h) => Hex4(h).value as char
    case Pair(hi, lo) => Combine(Hex4(hi).value, Hex4(lo).value) as char
  }

  predicate UnitsOk(us: seq<Unit>) {
    us == [] || (UnitOk(us[0]) && UnitsOk(us[1..]))
  }

  function Text(us: seq<Unit>): bytes {
    if us == [] then [] else UnitText(us[0]) + Text(us[1..])
  }

  function Chars(us: seq<Unit>): string
    requires UnitsOk(us)
  {
    if us == [] then [] else [UnitChar(us[0])] + Chars(us[1..])
  }

  /** isNoncharacter (RFC 7493, section 2.1): U+FDD0..U+FDEF and the last two code
      points of every plane. */
  predicate Noncharacter(n: int) {
    n % 0x10000 >= 0xFFFE || 0xFDD0 <= n <= 0xFDEF
  }

  predicate Clean(s: string) {
    forall i :: 0 <= i < |s| ==> !Noncharacter(s[i] as int)
  }

  /** The body b of a literal denotes s. */
  ghost predicate Denotes(b: bytes, s: string) {
    exists us :: UnitsOk(us) && Text(us) == b && Chars(us) == s
  }

  // ----- the syntax check of the JSON decoder -----

  /** The body up to and including its closing quote, as the JSON grammar delimits
      it: escapes are the eight short ones or \u with four digits, and control
      characters are refused. Bytes from 0x80 up are not looked at. */
  function LexBody(s: bytes): (n: Option<nat>)
    ensures n.Some? ==> 1 <= n.value <= |s| && s[n.value - 1] == QUOTE
  {
    if s == [] then None
    else if s[0] == QUOTE then Some(1)
    else if s[0] == BACKSLASH then
      if |s| >= 6 && s[1] == 0x75 && Hex4(s[2..]).Some? then Further(6, LexBody(s[6..]))
      else if |s| >= 2 && ShortChar(s[1]).Some? then Further(2, LexBody(s[2..]))
      else None
    else if s[0] < 0x20 then None
    else Further(1, LexBody(s[1..]))
  }

  function Further(k: nat, n: Option<nat>): (r: Option<nat>)
    ensures r.Some? <==> n.Some?
    ensures r.Some? ==> r.value == k + n.value
  {
    if n.None? then None else Some(k + n.value)
  }

  // ----- the Go scanner -----

  /** checkEscape: the span of the escape at the front. */
  function EscapeSpan(b: bytes): (n: Option<nat>)
    requires b != [] && b[0] == BACKSLASH
    ensures n.Some? ==> 2 <= n.value <= |b|
  {
    if |b| < 2 then None
    else if b[1] != 0x75 then Some(2)
    else
      var hi := Hex4(b[2..]);
      if hi.None? then None
      else if HighSurrogate(hi.value) then
        if |b| < 12 || b[6] != BACKSLASH || b[7] != 0x75 then None
        else
          var lo := Hex4(b[8..]);
          if lo.None? || !LowSurrogate(lo.value) || Noncharacter(Combine(hi.value, lo.value)) then None
          else Some(12)
      else if LowSurrogate(hi.value) || Noncharacter(hi.value) then None
      else Some(6)
  }

  /** One step of checkStringLiteral: the bytes it advances over. */
  function Step(b: bytes): (n: Option<nat>)
    requires b != []
    ensures n.Some? ==> 1 <= n.value <= |b|
  {
    if b[0] == BACKSLASH then EscapeSpan(b)
    else if b[0] < 0x20 then None
    else if b[0] < 0x80 then Some(1)
    else
      var r := DecodeRune(b);
      if r.None? || Noncharacter(r.value.scalar as int) then None else Some(r.value.size)
  }

  /** The span of an accepted body, its closing quote included. */
  function ScanBody(b: bytes): (n: Option<nat>)
    ensures n.Some? ==> 1 <= n.value <= |b|
  {
    if b == [] then None
    else if b[0] == QUOTE then Some(1)
    else if Step(b).None? then None
    else Further(Step(b).value, ScanBody(b[Step(b).value..]))
  }

  /** checkStringLiteral, on a literal that starts with its opening quote. */
  method CheckStringLiteral(b: bytes) returns (n: Option<nat>)
    requires b != [] && b[0] == QUOTE
    ensures n == Further(1, ScanBody(b[1..]))
  {
    hide Step, LexBody;
    var i := 1;
    while i < |b|
      invariant 1 <= i <= |b|
      invariant Further(1, ScanBody(b[1..])) == Further(i, ScanBody(b[i..]))
    {
      if b[i] == QUOTE {
        return Some(i + 1);
      }
      var step := Step(b[i..]);
      if step.None? {
        return None;
      }
      assert b[i..][step.value..] == b[i + step.value..];
      i := i + step.value;
    }
    return None;
  }

  /** The whole document passes: every literal the scan meets is accepted. */
  predicate ScanDocument(raw: bytes)
  {
    if raw == [] then true
    else if raw[0] != QUOTE then ScanDocument(raw[1..])
    else ScanBody(raw[1..]).Some? && ScanDocument(raw[1 + ScanBody(raw[1..]).value..])
  }

  /** checkStringScalars. */
  method CheckStringScalars(raw: bytes) returns (ok: bool)
    ensures ok == ScanDocument(raw)
  {
    var i := 0;
    while i < |raw|
      invariant 0 <= i <= |raw|
      invariant ScanDocument(raw) == ScanDocument(raw[i..])
    {
      if raw[i] != QUOTE {
        assert raw[i..][1..] == raw[i + 1..];
        i := i + 1;
      } else {
        var n := CheckStringLiteral(raw[i..]);
        if n.None? {
          return false;
        }
        assert raw[i..][n.value..] == raw[i + n.value..];
        i := i + n.value;
      }
    }
    return true;
  }

  // ----- the Python scanner -----

  /** _check_escape and _check_surrogate_pair. */
  function PyEscapeSpan(b: bytes): (n: Option<nat>)
    requires b != [] && b[0] == BACKSLASH
    ensures n.Some? ==> 2 <= n.value <= |b|
  {
    if |b| < 2 then None
    else if b[1..2] != [0x75] then Some(2)
    else
      var hi := Hex4(b[2..]);
      if hi.None? then None
      else if HighSurrogate(hi.value) then PySurrogatePair(b, hi.value)
      else if LowSurrogate(hi.value) || Noncharacter(hi.value) then None
      else Some(6)
  }

  function PySurrogatePair(b: bytes, hi: int): (n: Option<nat>)
    ensures n.Some? ==> n.value == 12 <= |b|
  {
    if |b| < 12 || b[6..8] != [BACKSLASH, 0x75] then None
    else
      var lo := Hex4(b[8..]);
      if lo.None? || !LowSurrogate(lo.value) then None
      else if Noncharacter(0x10000 + (hi - 0xD800) * 1024 + (lo.value - 0xDC00)) then None
      else Some(12)
  }

  /** One step of _check_string_literal. */
  function PyStep(b: bytes): (n: Option<nat>)
    requires b != []
    ensures n.Some? ==> 1 <= n.value <= |b|
  {
    if b[0] == BACKSLASH then PyEscapeSpan(b)
    else if b[0] < 0x20 then None
    else if b[0] < 0x80 then Some(1)
    else
      var size := SequenceLength(b[0]);
      if size == 0 || size > |b| then None
      else
        var c := StrictDecode(b[..size]);
        if c.None? || Noncharacter(c.value as int) then None else Some(size)
  }

  /** The two scanners advance alike on every input. */
  lemma RailsStepAlike(b: bytes)
    requires b != []
    ensures PyStep(b) == Step(b)
  {
    if b[0] == BACKSLASH {
      if |b| >= 2 {
        assert b[1..2] == [b[1]];
      }
      if |b| >= 12 {
        assert b[6..8] == [b[6], b[7]];
      }
    } else if b[0] >= 0x80 {
      RailsDecodeAlike(b);
    }
  }

  /** _check_string_literal accepts what checkStringLiteral accepts, with the same
      span. */
  method PyCheckStringLiteral(b: bytes) returns (n: Option<nat>)
    requires b != [] && b[0] == QUOTE
    ensures n == Further(1, ScanBody(b[1..]))
  {
    hide Step, PyStep, LexBody;
    var i := 1;
    while i < |b|
      invariant 1 <= i <= |b|
      invariant Further(1, ScanBody(b[1..])) == Further(i, ScanBody(b[i..]))
    {
      if b[i] == QUOTE {
        return Some(i + 1);
      }
      RailsStepAlike(b[i..]);
      var step := PyStep(b[i..]);
      if step.None? {
        return None;
      }
      assert b[i..][step.value..] == b[i + step.value..];
      i := i + step.value;
    }
    return None;
  }

  // ----- accepted literals are the clean denotations -----

  lemma Hex4Prefix(h: bytes, rest: bytes)
    requires |h| == 4
    ensures Hex4(h + rest) == Hex4(h)
  {
  }

  /** The scanner's step over a unit at the front. */
  predicate Stepped(u: Unit, rest: bytes)
    requires UnitOk(u)
  {
    var b := UnitText(u) + rest;
    && UnitText(u) != [] && b[0] != QUOTE
    && Step(b) == if Noncharacter(UnitChar(u) as int) then None else Some(|UnitText(u)|)
  }

  lemma PlainStepped(c: char, rest: bytes)
    requires UnitOk(Plain(c))
    ensures Stepped(Plain(c), rest)
  {
    hide EscapeSpan;
    DecodeEncoded(c, rest);
  }

  lemma ShortStepped(e: byte, rest: bytes)
    requires UnitOk(Short(e))
    ensures Stepped(Short(e), rest)
  {
    hide Hex4, DecodeRune;
  }

  /** The digits of an escape at the front. */
  lemma HexFront(h: bytes, rest: bytes)
    requires UnitOk(Hex(h))
    ensures var b := UnitText(Hex(h)) + rest;
            |b| >= 6 && b[0] == BACKSLASH && b[1] == 0x75 && Hex4(b[2..]) == Hex4(h)
  {
    hide Hex4;
    var b := UnitText(Hex(h)) + rest;
    assert b[2..] == h + rest;
    assert |h| == 4 by { FourDigits(h); }
    Hex4Prefix(h, rest);
  }

  lemma FourDigits(h: bytes)
    requires UnitOk(Hex(h))
    ensures |h| == 4
  {
  }

  lemma PairFront(hi: bytes, lo: bytes, rest: bytes)
    requires UnitOk(Pair(hi, lo))
    ensures var b := UnitText(Pair(hi, lo)) + rest;
            |b| >= 12 && b[0] == BACKSLASH && b[1] == 0x75 && Hex4(b[2..]) == Hex4(hi)
            && b[6] == BACKSLASH && b[7] == 0x75 && Hex4(b[8..]) == Hex4(lo)
  {
    hide Hex4;
    var b := UnitText(Pair(hi, lo)) + rest;
    assert |hi| == 4 && |lo| == 4 by { FourDigitsEach(hi, lo); }
    assert b[2..] == hi + b[6..] && b[8..] == lo + rest;
    Hex4Prefix(hi, b[6..]);
    Hex4Prefix(lo, rest);
  }

  lemma FourDigitsEach(hi: bytes, lo: bytes)
    requires UnitOk(Pair(hi, lo))
    ensures |hi| == 4 && |lo| == 4
  {
  }

  lemma HexStepped(h: bytes, rest: bytes)
    requires UnitOk(Hex(h))
    ensures Stepped(Hex(h), rest)
  {
    hide Hex4, DecodeRune;
    FourDigits(h);
    HexFront(h, rest);
  }

  lemma PairStepped(hi: bytes, lo: bytes, rest: bytes)
    requires UnitOk(Pair(hi, lo))
    ensures Stepped(Pair(hi, lo), rest)
  {
    hide Hex4, DecodeRune;
    FourDigitsEach(hi, lo);
    PairFront(hi, lo, rest);
  }

  /** A unit at the front, seen by the scanner and by the syntax check. */
  lemma UnitAtFront(u: Unit, rest: bytes)
    requires UnitOk(u)
    ensures UnitText(u) != [] && (UnitText(u) + rest)[|UnitText(u)|..] == rest
    ensures (UnitText(u) + rest)[0] != QUOTE
    ensures Step(UnitText(u) + rest) == if Noncharacter(UnitChar(u) as int) then None else Some(|UnitText(u)|)
  {
    hide Step, UnitText, UnitChar, UnitOk, Noncharacter;
    match u
    case Plain(c) => PlainStepped(c, rest);
    case Short(e) => ShortStepped(e, rest);
    case Hex(h) => HexStepped(h, rest);
    case Pair(hi, lo) => PairStepped(hi, lo, rest);
  }

  lemma UnitLexed(u: Unit, rest: bytes)
    requires UnitOk(u)
    ensures LexBody(UnitText(u) + rest) == Further(|UnitText(u)|, LexBody(rest))
  {
    hide LexBody, HexValue;
    match u
    case Plain(c) =>
      PlainBytes(c);
      RawBytesLexed(Encode(c), rest);
    case Short(e) =>
      ShortLexed(e, rest);
    case Hex(h) =>
      HexLexed(h, rest);
    case Pair(hi, lo) =>
      HexLexed(lo, rest);
      HexLexed(hi, [BACKSLASH, 0x75] + lo + rest);
      assert UnitText(u) + rest == [BACKSLASH, 0x75] + hi + ([BACKSLASH, 0x75] + lo + rest);
  }

  lemma ShortLexed(e: byte, rest: bytes)
    requires ShortChar(e).Some?
    ensures LexBody([BACKSLASH, e] + rest) == Further(2, LexBody(rest))
  {
    hide Hex4, ShortChar;
    assert e != 0x75 by { NoShortU(); }
    var s := [BACKSLASH, e] + rest;
    assert s[0] == BACKSLASH && s[1] == e && s[2..] == rest;
  }

  lemma NoShortU()
    ensures ShortChar(0x75).None?
  {
  }

  lemma HexLexed(h: bytes, rest: bytes)
    requires |h| == 4 && Hex4(h).Some?
    ensures LexBody([BACKSLASH, 0x75] + h + rest) == Further(6, LexBody(rest))
  {
    hide HexValue;
    var b := [BACKSLASH, 0x75] + h + rest;
    assert b[2..] == h + rest && b[6..] == rest;
    Hex4Prefix(h, rest);
  }

  /** Raw bytes: no quote, no backslash, no control character. */
  predicate RawBytes(e: bytes) {
    forall i :: 0 <= i < |e| ==> e[i] >= 0x20 && e[i] != QUOTE && e[i] != BACKSLASH
  }

  lemma PlainBytes(c: char)
    requires UnitOk(Plain(c))
    ensures RawBytes(Encode(c))
  {
  }

  lemma {:induction false} RawBytesLexed(e: bytes, rest: bytes)
    requires RawBytes(e)
    ensures LexBody(e + rest) == Further(|e|, LexBody(rest))
  {
    hide Hex4, ShortChar;
    if e == [] {
      assert e + rest == rest;
    } else {
      var b := e + rest;
      assert b[0] == e[0] && b[1..] == e[1..] + rest;
      assert LexBody(b) == Further(1, LexBody(b[1..]));
      RawBytesLexed(e[1..], rest);
    }
  }

  lemma ClosingQuote(b: bytes)
    requires b != [] && b[0] == QUOTE
    ensures LexBody(b) == Some(1) && ScanBody(b) == Some(1)
  {
  }

  /** What denotes a clean string is accepted, with its exact span; a noncharacter
      is refused. */
  lemma {:induction false} ScanUnits(us: seq<Unit>, rest: bytes)
    requires UnitsOk(us)
    ensures ScanBody(Text(us) + [QUOTE] + rest) == if Clean(Chars(us)) then Some(|Text(us)| + 1) else None
    ensures LexBody(Text(us) + [QUOTE] + rest) == Some(|Text(us)| + 1)
  {
    hide Step, UnitText, UnitChar, UnitOk, LexBody, Noncharacter;
    var b := Text(us) + [QUOTE] + rest;
    if us == [] {
      ClosingQuote(b);
    } else {
      var tail := Text(us[1..]) + [QUOTE] + rest;
      assert b == UnitText(us[0]) + tail;
      UnitAtFront(us[0], tail);
      UnitLexed(us[0], tail);
      ScanUnits(us[1..], rest);
      assert Chars(us)[0] == UnitChar(us[0]) && Chars(us)[1..] == Chars(us[1..]);
      assert Clean(Chars(us)) <==> !Noncharacter(UnitChar(us[0]) as int) && Clean(Chars(us[1..])) by {
        if Clean(Chars(us)) {
          assert forall i :: 0 <= i < |Chars(us[1..])| ==> Chars(us[1..])[i] == Chars(us)[i + 1];
        }
      }
    }
  }

  /** The unit is the text a successful step advances over. */
  predicate TextOfStep(u: Unit, b: bytes)
    requires b != [] && Step(b).Some?
  {
    UnitOk(u) && UnitText(u) == b[..Step(b).value] && !Noncharacter(UnitChar(u) as int)
  }

  lemma EscapeOfStep(b: bytes) returns (u: Unit)
    requires b != [] && b[0] == BACKSLASH && Step(b).Some? && LexBody(b).Some?
    ensures TextOfStep(u, b)
  {
    hide Hex4, DecodeRune;
    if b[1] != 0x75 {
      u := Short(b[1]);
    } else {
      Hex4Prefix(b[2..6], b[6..]);
      assert b[2..] == b[2..6] + b[6..];
      if Step(b).value == 6 {
        u := Hex(b[2..6]);
      } else {
        Hex4Prefix(b[8..12], b[12..]);
        assert b[8..] == b[8..12] + b[12..];
        u := Pair(b[2..6], b[8..12]);
        assert UnitText(u) == b[..12];
      }
    }
  }

  lemma RawOfStep(b: bytes) returns (u: Unit)
    requires b != [] && b[0] != QUOTE && b[0] != BACKSLASH && Step(b).Some? && LexBody(b).Some?
    ensures TextOfStep(u, b)
  {
    hide EscapeSpan;
    if b[0] < 0x80 {
      u := Plain(b[0] as char);
    } else {
      EncodeDecoded(b);
      u := Plain(DecodeRune(b).value.scalar);
    }
  }

  lemma UnitOfStep(b: bytes) returns (u: Unit)
    requires b != [] && b[0] != QUOTE && Step(b).Some? && LexBody(b).Some?
    ensures UnitOk(u) && UnitText(u) == b[..Step(b).value] && !Noncharacter(UnitChar(u) as int)
  {
    hide Step, LexBody, UnitText, UnitChar, UnitOk, Noncharacter;
    if b[0] == BACKSLASH {
      u := EscapeOfStep(b);
    } else {
      u := RawOfStep(b);
    }
  }

  lemma FirstStep(b: bytes)
    requires ScanBody(b).Some? && b[0] != QUOTE
    ensures Step(b).Some? && ScanBody(b[Step(b).value..]).Some?
    ensures ScanBody(b).value == Step(b).value + ScanBody(b[Step(b).value..]).value
  {
    hide Step;
  }

  /** An accepted literal denotes a clean string. */
  lemma {:induction false} UnitsOfScan(b: bytes) returns (us: seq<Unit>)
    requires ScanBody(b).Some? && LexBody(b).Some?
    ensures UnitsOk(us) && Clean(Chars(us)) && Text(us) + [QUOTE] == b[..ScanBody(b).value]
    decreases |b|
  {
    if b[0] == QUOTE {
      us := [];
    } else {
      hide Step, ScanBody, LexBody, UnitText, UnitChar, UnitOk, Noncharacter;
      FirstStep(b);
      var n := Step(b).value;
      var u := UnitOfStep(b);
      assert b == UnitText(u) + b[n..];
      UnitLexed(u, b[n..]);
      var tail := UnitsOfScan(b[n..]);
      us := [u] + tail;
      assert us[1..] == tail;
      assert Chars(us) == [UnitChar(u)] + Chars(tail);
      TextPrepended(UnitText(u), Text(tail), b[n..], ScanBody(b[n..]).value);
    }
  }

  lemma TextPrepended(t: bytes, tail: bytes, rest: bytes, k: nat)
    requires k <= |rest| && tail + [QUOTE] == rest[..k]
    ensures (t + tail) + [QUOTE] == (t + rest)[..|t| + k]
  {
    assert (t + rest)[..|t| + k] == t + rest[..k];
  }

  /** checkStringLiteral on the bytes of a syntactically valid document: the literal
      the grammar delimits is accepted, with that span, exactly when its body denotes
      a string of scalar values without a noncharacter. */
  lemma AcceptedIffDenotesClean(b: bytes)
    requires LexBody(b).Some?
    ensures ScanBody(b).Some? <==> exists s :: Clean(s) && Denotes(b[..LexBody(b).value - 1], s)
    ensures ScanBody(b).Some? ==> ScanBody(b) == LexBody(b)
  {
    hide Step, LexBody, ScanBody, Text, Chars;
    var n := LexBody(b).value;
    if ScanBody(b).Some? {
      var us := UnitsOfScan(b);
      ScanUnits(us, b[ScanBody(b).value..]);
      assert b == Text(us) + [QUOTE] + b[ScanBody(b).value..];
      assert b[..n - 1] == Text(us);
      assert Denotes(b[..n - 1], Chars(us));
    }
    if s :| Clean(s) && Denotes(b[..n - 1], s) {
      var us :| UnitsOk(us) && Text(us) == b[..n - 1] && Chars(us) == s;
      ScanUnits(us, b[n..]);
      assert b == Text(us) + [QUOTE] + b[n..];
    }
  }

  // ----- the substituting decoder -----

  const REPLACEMENT: char := '\U{FFFD}'

  /** One step of encoding/json's unquote on a syntactically valid body: ill-formed
      UTF-8 and unpaired surrogate escapes become U+FFFD. */
  function UnquoteStep(b: bytes): (r: Rune)
    requires b != []
    ensures 1 <= r.size <= |b|
  {
    if b[0] == BACKSLASH then
      if |b| >= 6 && b[1] == 0x75 && Hex4(b[2..]).Some? then
        var hi := Hex4(b[2..]).value;
        if HighSurrogate(hi) || LowSurrogate(hi) then
          if HighSurrogate(hi) && |b| >= 12 && b[6] == BACKSLASH && b[7] == 0x75
             && Hex4(b[8..]).Some? && LowSurrogate(Hex4(b[8..]).value)
          then Rune(Combine(hi, Hex4(b[8..]).value) as char, 12)
          else Rune(REPLACEMENT, 6)
        else Rune(hi as char, 6)
      else if |b| >= 2 && ShortChar(b[1]).Some? then Rune(ShortChar(b[1]).value, 2)
      else Rune(REPLACEMENT, 1)
    else if DecodeRune(b).Some? then DecodeRune(b).value
    else Rune(REPLACEMENT, 1)
  }

  function Unquote(b: bytes): string
  {
    if b == [] then [] else [UnquoteStep(b).scalar] + Unquote(b[UnquoteStep(b).size..])
  }

  /** On accepted literals the substituting decoder decodes exactly. */
  lemma {:induction false} UnquoteUnits(us: seq<Unit>)
    requires UnitsOk(us)
    ensures Unquote(Text(us)) == Chars(us)
  {
    hide UnquoteStep, UnitText, UnitChar, UnitOk;
    if us != [] {
      UnitAtFront(us[0], Text(us[1..]));
      UnitUnquoted(us[0], Text(us[1..]));
      UnquoteUnits(us[1..]);
    }
  }

  lemma UnitUnquoted(u: Unit, rest: bytes)
    requires UnitOk(u)
    ensures UnquoteStep(UnitText(u) + rest) == Rune(UnitChar(u), |UnitText(u)|)
  {
    hide UnquoteStep;
    match u
    case Plain(c) => PlainUnquoted(c, rest);
    case Short(e) => ShortUnquoted(e, rest);
    case Hex(h) => HexUnquoted(h, rest);
    case Pair(hi, lo) => PairUnquoted(hi, lo, rest);
  }

  lemma PlainUnquoted(c: char, rest: bytes)
    requires UnitOk(Plain(c))
    ensures UnquoteStep(UnitText(Plain(c)) + rest) == Rune(c, |Encode(c)|)
  {
    hide Hex4, ShortChar;
    PlainBytes(c);
    DecodeEncoded(c, rest);
  }

  lemma ShortUnquoted(e: byte, rest: bytes)
    requires UnitOk(Short(e))
    ensures UnquoteStep(UnitText(Short(e)) + rest) == Rune(UnitChar(Short(e)), 2)
  {
    hide Hex4, DecodeRune;
  }

  lemma HexUnquoted(h: bytes, rest: bytes)
    requires UnitOk(Hex(h))
    ensures UnquoteStep(UnitText(Hex(h)) + rest) == Rune(UnitChar(Hex(h)), 6)
  {
    hide Hex4, DecodeRune;
    HexFront(h, rest);
  }

  lemma PairUnquoted(hi: bytes, lo: bytes, rest: bytes)
    requires UnitOk(Pair(hi, lo))
    ensures UnquoteStep(UnitText(Pair(hi, lo)) + rest) == Rune(UnitChar(Pair(hi, lo)), 12)
  {
    hide Hex4, DecodeRune;
    PairFront(hi, lo, rest);
  }

  /** An accepted literal denotes exactly what the decoder returned for it. */
  lemma AcceptedDecodesExactly(b: bytes)
    requires LexBody(b).Some? && ScanBody(b).Some?
    ensures var body := b[..LexBody(b).value - 1];
            Clean(Unquote(body)) && Denotes(body, Unquote(body))
  {
    hide Step, LexBody, ScanBody, Text, Chars, Unquote, UnitsOk;
    var us := UnitsOfScan(b);
    ScanUnits(us, b[ScanBody(b).value..]);
    assert b == Text(us) + [QUOTE] + b[ScanBody(b).value..];
    assert b[..LexBody(b).value - 1] == Text(us);
    UnquoteUnits(us);
  }

  // ----- the canonical writer -----

  function HexByte(n: int): byte
    requires 0 <= n < 16
  {
    if n < 10 then 0x30 + n else 0x61 + n - 10
  }

  /** RFC 8785, section 3.2.2.2. */
  function JcsChar(c: char): bytes {
    var n := c as int;
    if c == '\"' then [BACKSLASH, 0x22]
    else if c == '\\' then [BACKSLASH, 0x5C]
    else if n == 8 then [BACKSLASH, 0x62]
    else if n == 9 then [BACKSLASH, 0x74]
    else if n == 10 then [BACKSLASH, 0x6E]
    else if n == 12 then [BACKSLASH, 0x66]
    else if n == 13 then [BACKSLASH, 0x72]
    else if n < 0x20 then [BACKSLASH, 0x75, 0x30, 0x30, HexByte(n / 16), HexByte(n % 16)]
    else Encode(c)
  }

  function JcsChars(s: string): bytes {
    if s == [] then [] else JcsChar(s[0]) + JcsChars(s[1..])
  }

  /** appendJCSString. */
  function JcsString(s: string): bytes {
    [QUOTE] + JcsChars(s) + [QUOTE]
  }

  function JcsUnit(c: char): (u: Unit)
    ensures UnitOk(u) && UnitText(u) == JcsChar(c) && UnitChar(u) == c
  {
    var n := c as int;
    if c == '\"' then Short(0x22)
    else if c == '\\' then Short(0x5C)
    else if n == 8 then Short(0x62)
    else if n == 9 then Short(0x74)
    else if n == 10 then Short(0x6E)
    else if n == 12 then Short(0x66)
    else if n == 13 then Short(0x72)
    else if n < 0x20 then Hex([0x30, 0x30, HexByte(n / 16), HexByte(n % 16)])
    else Plain(c)
  }

  lemma {:induction false} JcsUnits(s: string) returns (us: seq<Unit>)
    ensures UnitsOk(us) && Text(us) == JcsChars(s) && Chars(us) == s
  {
    if s == [] {
      us := [];
    } else {
      var tail := JcsUnits(s[1..]);
      us := [JcsUnit(s[0])] + tail;
      assert us[1..] == tail;
    }
  }

  /** The written literal reads back: its span, its value, and the scan. */
  lemma JcsReadsBack(s: string, rest: bytes)
    ensures LexBody(JcsChars(s) + [QUOTE] + rest) == Some(|JcsChars(s)| + 1)
    ensures Unquote(JcsChars(s)) == s
    ensures Clean(s) ==> ScanBody(JcsChars(s) + [QUOTE] + rest) == Some(|JcsChars(s)| + 1)
  {
    var us := JcsUnits(s);
    ScanUnits(us, rest);
    UnquoteUnits(us);
  }
}
