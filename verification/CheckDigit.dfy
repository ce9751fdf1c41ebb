/** The ISO 7064 MOD 11-2 check of scripts/citation-metadata-gate.py, with its loop
    generalised to any body length. */
module CheckDigit {
  import opened Core

  // ----- characters -----

  /** How Python sees a character: str.isdigit() takes the last two kinds, int() only
      the last. */
  datatype CharClass = NotDigit | DigitOnly | Decimal(value: int)

  /** Characters outside ASCII, but for the superscripts below. */
  const UNICODE_CLASS: char -> CharClass

  predicate Superscript(c: char) {
    c == '\U{B9}' || c == '\U{B2}' || c == '\U{B3}'
  }

  function ClassOf(c: char): CharClass {
    if '0' <= c <= '9' then Decimal((c - '0') as int)
    else if c as int < 0x80 then NotDigit
    else if Superscript(c) then DigitOnly
    else UNICODE_CLASS(c)
  }

  /** identifier.replace("-", ""). */
  function WithoutHyphens(s: string): string {
    if s == [] then [] else (if s[0] == '-' then [] else [s[0]]) + WithoutHyphens(s[1..])
  }

  /** The value of a check character, after upper(). */
  function CheckValue(c: char): Option<int> {
    if '0' <= c <= '9' then Some((c - '0') as int) else if c == 'X' || c == 'x' then Some(10) else None
  }

  // ----- the arithmetic -----

  /** The total after the digits ds, from total t. */
  function TotalFrom(t: int, ds: seq<int>): int
    decreases |ds|
  {
    if ds == [] then t else TotalFrom((t + ds[0]) * 2, ds[1..])
  }

  /** The check value of a body. */
  function CheckOf(ds: seq<int>): (c: int)
    ensures 0 <= c < 11
  {
    (12 - TotalFrom(0, ds) % 11) % 11
  }

  predicate Accepted(ds: seq<int>, check: int) {
    check == CheckOf(ds)
  }

  // ----- the routine -----

  datatype Outcome = Ok | NotOk | Raises

  /** A body str.isdigit() takes. */
  predicate IsDigitString(s: string) {
    s != [] && forall i :: 0 <= i < |s| ==> !ClassOf(s[i]).NotDigit?
  }

  predicate HasNonDecimal(s: string) {
    exists i :: 0 <= i < |s| && !ClassOf(s[i]).Decimal?
  }

  function DigitValues(s: string): (ds: seq<int>)
    requires !HasNonDecimal(s)
    ensures |ds| == |s|
  {
    seq(|s|, i requires 0 <= i < |s| && ClassOf(s[i]).Decimal? => ClassOf(s[i]).value)
  }

  /** orcid_check_digit_ok: what each identifier comes to. */
  method OrcidCheckDigitOk(identifier: string) returns (r: Outcome)
    ensures var digits := WithoutHyphens(identifier);
            if |digits| != 16 || !IsDigitString(digits[..15]) then r == NotOk
            else if HasNonDecimal(digits[..15]) then r == Raises
            else r == if CheckValue(digits[15]) == Some(CheckOf(DigitValues(digits[..15]))) then Ok else NotOk
  {
    var digits := WithoutHyphens(identifier);
    if |digits| != 16 {
      return NotOk;
    }
    var body := digits[..15];
    if !IsDigitString(body) {
      return NotOk;
    }
    var total := 0;
    for i := 0 to |body|
      invariant forall k :: 0 <= k < i ==> ClassOf(body[k]).Decimal?
      invariant !HasNonDecimal(body) ==> TotalFrom(0, DigitValues(body)) == TotalFrom(total, DigitValues(body)[i..])
    {
      var class_ := ClassOf(body[i]);
      if !class_.Decimal? {
        return Raises;
      }
      if !HasNonDecimal(body) {
        assert DigitValues(body)[i..][0] == class_.value && DigitValues(body)[i..][1..] == DigitValues(body)[i + 1..];
      }
      total := (total + class_.value) * 2;
    }
    assert !HasNonDecimal(body) && DigitValues(body)[|body|..] == [];
    var remainder := total % 11;
    var result := (12 - remainder) % 11;
    return if CheckValue(digits[15]) == Some(result) then Ok else NotOk;
  }

  // ----- what the check catches -----

  /** Different residues stay different under the same digits. */
  lemma {:induction false} ResiduesApart(t: int, u: int, ds: seq<int>)
    requires t % 11 != u % 11
    ensures TotalFrom(t, ds) % 11 != TotalFrom(u, ds) % 11
    decreases |ds|
  {
    if ds != [] {
      ResiduesApart((t + ds[0]) * 2, (u + ds[0]) * 2, ds[1..]);
    }
  }

  lemma {:induction false} TotalAppend(t: int, a: seq<int>, b: seq<int>)
    ensures TotalFrom(t, a + b) == TotalFrom(TotalFrom(t, a), b)
    decreases |a|
  {
    if a == [] {
      assert a + b == b;
    } else {
      assert (a + b)[1..] == a[1..] + b;
      TotalAppend((t + a[0]) * 2, a[1..], b);
    }
  }

  predicate Digits(ds: seq<int>) {
    forall i :: 0 <= i < |ds| ==> 0 <= ds[i] <= 9
  }

  lemma CheckApart(a: seq<int>, b: seq<int>)
    requires TotalFrom(0, a) % 11 != TotalFrom(0, b) % 11
    ensures CheckOf(a) != CheckOf(b)
  {
  }

  /** Numbers that differ by twice a small difference have different residues. */
  lemma TwiceApart(x: int, y: int, k: int)
    requires x - y == 2 * k && -9 <= k <= 9 && k != 0
    ensures x % 11 != y % 11
  {
  }

  lemma LastDigit(pre: seq<int>, a: int)
    ensures CheckOf(pre + [a]) == (12 - (TotalFrom(0, pre) + a) * 2 % 11) % 11
  {
    hide TotalFrom;
    TotalAppend(0, pre, [a]);
    OneDigit(TotalFrom(0, pre), a);
  }

  lemma OneDigit(t: int, a: int)
    ensures TotalFrom(t, [a]) == (t + a) * 2
  {
    assert [a][1..] == [];
  }

  lemma CheckMeans(total: int, c: int)
    requires c == (12 - total % 11) % 11
    ensures (total + c) % 11 == 1
  {
  }

  lemma NotBothOne(x: int, y: int, k: int)
    requires x - y == k && -9 <= k <= 9 && k != 0
    ensures !(x % 11 == 1 && y % 11 == 1)
  {
  }

  /** One substituted digit: not both identifiers are accepted, whichever the position
      and the body length. */
  lemma SubstitutionCaught(pre: seq<int>, d: int, d': int, post: seq<int>, check: int)
    requires 0 <= d <= 9 && 0 <= d' <= 9 && d != d'
    ensures !(Accepted(pre + ([d] + post), check) && Accepted(pre + ([d'] + post), check))
  {
    var t := TotalFrom(0, pre);
    TotalAppend(0, pre, [d] + post);
    TotalAppend(0, pre, [d'] + post);
    assert ([d] + post)[1..] == post && ([d'] + post)[1..] == post;
    TwiceApart((t + d) * 2, (t + d') * 2, d - d');
    ResiduesApart((t + d) * 2, (t + d') * 2, post);
    CheckApart(pre + ([d] + post), pre + ([d'] + post));
  }

  /** Two unequal adjacent digits swapped. */
  lemma TranspositionCaught(pre: seq<int>, a: int, b: int, post: seq<int>, check: int)
    requires 0 <= a <= 9 && 0 <= b <= 9 && a != b
    ensures !(Accepted(pre + ([a, b] + post), check) && Accepted(pre + ([b, a] + post), check))
  {
    var t := TotalFrom(0, pre);
    TotalAppend(0, pre, [a, b] + post);
    TotalAppend(0, pre, [b, a] + post);
    assert ([a, b] + post)[1..] == [b] + post && ([b, a] + post)[1..] == [a] + post;
    assert ([b] + post)[1..] == post && ([a] + post)[1..] == post;
    var x, y := ((t + a) * 2 + b) * 2, ((t + b) * 2 + a) * 2;
    TwiceApart(x, y, a - b);
    ResiduesApart(x, y, post);
    CheckApart(pre + ([a, b] + post), pre + ([b, a] + post));
  }

  /** The last digit swapped with a different check character. */
  lemma CheckTranspositionCaught(pre: seq<int>, a: int, c: int)
    requires 0 <= a <= 9 && 0 <= c <= 9 && a != c
    ensures !(Accepted(pre + [a], c) && Accepted(pre + [c], a))
  {
    hide TotalFrom, CheckOf;
    var t := TotalFrom(0, pre);
    LastDigit(pre, a);
    LastDigit(pre, c);
    if Accepted(pre + [a], c) && Accepted(pre + [c], a) {
      CheckMeans((t + a) * 2, c);
      CheckMeans((t + c) * 2, a);
      NotBothOne((t + a) * 2 + c, (t + c) * 2 + a, a - c);
    }
  }

  /** Fourteen zeros, a superscript two, and a zero. */
  const SUPERSCRIPT_TWO: string := seq(14, _ => '0') + ['\U{B2}', '0']

  /** The routine's own description says that it returns false on anything malformed
      rather than raising. It raises here; OrcidCheckDigitOk says on which identifiers. */
  lemma RaisesOnSuperscript()
    ensures WithoutHyphens(SUPERSCRIPT_TWO) == SUPERSCRIPT_TWO && |SUPERSCRIPT_TWO| == 16
    ensures IsDigitString(SUPERSCRIPT_TWO[..15]) && HasNonDecimal(SUPERSCRIPT_TWO[..15])
  {
    var s := SUPERSCRIPT_TWO;
    NoHyphens(s);
    assert ClassOf(s[..15][14]) == DigitOnly;
    forall i | 0 <= i < 15 ensures !ClassOf(s[..15][i]).NotDigit? {
      assert i < 14 ==> s[..15][i] == '0';
    }
  }

  lemma {:induction false} NoHyphens(s: string)
    requires forall i :: 0 <= i < |s| ==> s[i] != '-'
    ensures WithoutHyphens(s) == s
  {
    if s != [] {
      NoHyphens(s[1..]);
    }
  }

  /** A hyphen is dropped wherever it stands. */
  lemma {:induction false} HyphenDropped(a: string, b: string)
    ensures WithoutHyphens(a + ("-" + b)) == WithoutHyphens(a) + WithoutHyphens(b)
  {
    if a == [] {
      assert a + ("-" + b) == "-" + b && ("-" + b)[1..] == b;
    } else {
      assert (a + ("-" + b))[1..] == a[1..] + ("-" + b);
      HyphenDropped(a[1..], b);
    }
  }

  // ----- the check as a weighted sum -----

  /** 2^k. */
  function Weight(k: nat): nat {
    if k == 0 then 1 else 2 * Weight(k - 1)
  }

  /** Each digit by its weight, the last one by 2. */
  function Weighted(ds: seq<int>): int {
    if ds == [] then 0 else ds[0] * Weight(|ds|) + Weighted(ds[1..])
  }

  lemma {:induction false} TotalIsWeighted(t: int, ds: seq<int>)
    ensures TotalFrom(t, ds) == t * Weight(|ds|) + Weighted(ds)
    decreases |ds|
  {
    if ds != [] {
      var w := Weight(|ds| - 1);
      TotalIsWeighted((t + ds[0]) * 2, ds[1..]);
      assert (t + ds[0]) * 2 * w == t * (2 * w) + ds[0] * (2 * w);
    }
  }

  /** ISO 7064: a body and its check character are accepted exactly when their weighted
      sum is 1 modulo 11. */
  lemma AcceptedWeighted(ds: seq<int>, check: int)
    ensures Accepted(ds, check) <==> 0 <= check <= 10 && (Weighted(ds) + check) % 11 == 1
  {
    hide TotalFrom;
    TotalIsWeighted(0, ds);
  }

  /** The last character stands for its figure, X for ten. */
  lemma CheckCharacters(c: char, v: int)
    ensures CheckValue(c) == Some(v) <==> (0 <= v <= 9 && c == "0123456789"[v]) || (v == 10 && c in {'X', 'x'})
  {
  }

  /** ASCII digits stand for themselves, no other ASCII character is a digit. */
  lemma BodyCharacters(c: char)
    requires c as int < 0x80
    ensures !ClassOf(c).NotDigit? <==> c in "0123456789"
    ensures forall v :: 0 <= v <= 9 && c == "0123456789"[v] ==> ClassOf(c) == Decimal(v)
  {
  }
}
