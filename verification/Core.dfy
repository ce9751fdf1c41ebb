/** Bytes, the uninterpreted SHA-256, hexadecimal and decimal text, and the few
    sequence facts the rest of the project shares. */
module Core {

  type byte = x: int | 0 <= x < 256
  type bytes = seq<byte>

  type Digest = s: bytes | |s| == 32 witness seq(32, _ => 0)

  datatype Option<+T> = None | Some(value: T)

  /** What a lexer or parser took off the front, and what it left. */
  datatype Lexed<+T> = Lexed(token: T, rest: bytes)

  /** SHA-256 as an uninterpreted constant. Its type says that it maps every byte
      string to 32 bytes; nothing else about it is known, in particular not that
      it is injective. */
  const SHA256: bytes -> Digest

  function Sha256(b: bytes): Digest {
    SHA256(b)
  }

  /** A collision: two different inputs, one digest. */
  predicate Collides(a: bytes, b: bytes) {
    a != b && Sha256(a) == Sha256(b)
  }

  /** The ASCII bytes of a literal of this project. */
  function Ascii(s: string): (b: bytes)
    requires forall i :: 0 <= i < |s| ==> s[i] as int < 128
    ensures |b| == |s| && forall i :: 0 <= i < |s| ==> b[i] == s[i] as int
  {
    seq(|s|, i requires 0 <= i < |s| => s[i] as int)
  }

  // ----- hexadecimal -----

  function HexDigit(n: int): (c: char)
    requires 0 <= n < 16
    ensures IsLowerHexDigit(c)
  {
    if n < 10 then '0' + n as char else 'a' + (n - 10) as char
  }

  predicate IsLowerHexDigit(c: char) {
    '0' <= c <= '9' || 'a' <= c <= 'f'
  }

  predicate HexString(s: string) {
    forall i :: 0 <= i < |s| ==> IsLowerHexDigit(s[i])
  }

  /** hex.EncodeToString: two lowercase digits a byte. */
  function Hex(b: bytes): (s: string)
    ensures |s| == 2 * |b|
    ensures forall c :: c in s ==> IsLowerHexDigit(c)
  {
    if b == [] then [] else [HexDigit(b[0] / 16), HexDigit(b[0] % 16)] + Hex(b[1..])
  }

  lemma {:induction false} HexInjective(a: bytes, b: bytes)
    requires Hex(a) == Hex(b)
    ensures a == b
  {
    if a == [] || b == [] {
      assert |Hex(a)| == 2 * |a| && |Hex(b)| == 2 * |b|;
    } else {
      var x, y := Hex(a), Hex(b);
      assert x[0] == HexDigit(a[0] / 16) && x[1] == HexDigit(a[0] % 16) && x[2..] == Hex(a[1..]);
      assert y[0] == HexDigit(b[0] / 16) && y[1] == HexDigit(b[0] % 16) && y[2..] == Hex(b[1..]);
      HexInjective(a[1..], b[1..]);
      assert a == [a[0]] + a[1..] && b == [b[0]] + b[1..];
    }
  }

  /** The figures of every byte, the high one first. */
  lemma {:induction false} HexFigures(b: bytes, i: nat)
    requires i < |b|
    ensures Hex(b)[2 * i] == "0123456789abcdef"[b[i] / 16] && Hex(b)[2 * i + 1] == "0123456789abcdef"[b[i] % 16]
  {
    if i > 0 {
      HexFigures(b[1..], i - 1);
    }
  }

  function SHA256Hex(b: bytes): (s: string)
    ensures IsLowerHex64(s)
  {
    Hex(Sha256(b))
  }

  /** IsLowerHex64: exactly 64 lowercase hexadecimal characters. */
  predicate IsLowerHex64(s: string) {
    |s| == 64 && forall c :: c in s ==> IsLowerHexDigit(c)
  }

  /** The byte-by-byte scan of the source decides IsLowerHex64. */
  method ScanLowerHex64(s: string) returns (ok: bool)
    ensures ok == IsLowerHex64(s)
  {
    if |s| != 64 {
      return false;
    }
    for i := 0 to |s|
      invariant forall c :: c in s[..i] ==> IsLowerHexDigit(c)
    {
      if (s[i] < '0' || s[i] > '9') && (s[i] < 'a' || s[i] > 'f') {
        assert s[i] in s;
        return false;
      }
      assert s[..i + 1] == s[..i] + [s[i]];
    }
    assert s[..|s|] == s;
    return true;
  }

  /** Equal hexadecimal digests: equal inputs, or a collision. */
  lemma SHA256HexBinds(a: bytes, b: bytes)
    requires SHA256Hex(a) == SHA256Hex(b)
    ensures a == b || Collides(a, b)
  {
    HexInjective(Sha256(a), Sha256(b));
  }

  // ----- decimal text -----

  predicate IsDigit(b: byte) {
    '0' as int <= b <= '9' as int
  }

  predicate AllDigits(ds: bytes) {
    forall d :: d in ds ==> IsDigit(d)
  }

  function DigitsValue(ds: bytes): (n: nat)
    requires AllDigits(ds)
  {
    if ds == [] then 0 else
      assert ds[|ds| - 1] in ds;
      10 * DigitsValue(ds[..|ds| - 1]) + (ds[|ds| - 1] - '0' as int)
  }

  /** The plain decimal text of a natural number. */
  function DecText(n: nat): (ds: bytes)
    ensures |ds| >= 1 && AllDigits(ds)
    ensures DigitsValue(ds) == n
    ensures ds[0] == '0' as int ==> |ds| == 1
  {
    if n < 10 then [n + '0' as int]
    else
      var ds := DecText(n / 10) + [n % 10 + '0' as int];
      assert ds[..|ds| - 1] == DecText(n / 10);
      ds
  }

  lemma DecTextInjective(m: nat, n: nat)
    requires DecText(m) == DecText(n)
    ensures m == n
  {
    assert DigitsValue(DecText(m)) == DigitsValue(DecText(n));
  }

  // ----- sequences -----

  function Max(a: int, b: int): int {
    if a < b then b else a
  }

  /** The longest prefix of digits. */
  function DigitRun(s: bytes): (n: nat)
    ensures n <= |s| && AllDigits(s[..n])
    ensures n < |s| ==> !IsDigit(s[n])
  {
    if s == [] || !IsDigit(s[0]) then 0
    else
      var n := DigitRun(s[1..]);
      assert s[..1 + n] == [s[0]] + s[1..][..n];
      1 + n
  }

  lemma {:induction false} DigitRunOf(ds: bytes, rest: bytes)
    requires AllDigits(ds)
    requires rest == [] || !IsDigit(rest[0])
    ensures DigitRun(ds + rest) == |ds|
  {
    if ds == [] {
      assert ds + rest == rest;
    } else {
      assert (ds + rest)[1..] == ds[1..] + rest;
      assert ds[0] in ds;
      DigitRunOf(ds[1..], rest);
    }
  }
}
