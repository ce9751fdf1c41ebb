/** A reader of the DSSE v1 pre-authentication encoding (aee/pae.go:12-14), written from
    the format alone, and that it reads back what Pae writes. */
module Dsse {
  import opened Core
  import Merkle
  import Utf8

  predicate Figure(b: byte) {
    0x30 <= b <= 0x39
  }

  /** The decimal number at the front, after the figures read so far. */
  function ReadFigures(s: bytes, n: nat): (r: Lexed<nat>)
    ensures |r.rest| <= |s|
  {
    if s != [] && Figure(s[0]) then ReadFigures(s[1..], 10 * n + (s[0] - 0x30)) else Lexed(n, s)
  }

  /** A length, a space, and that many bytes. */
  function ReadField(s: bytes): (r: Option<Lexed<bytes>>) {
    if s == [] || !Figure(s[0]) then None
    else
      var n := ReadFigures(s, 0);
      if n.rest == [] || n.rest[0] != 0x20 || |n.rest| - 1 < n.token then None
      else Some(Lexed(n.rest[1..][..n.token], n.rest[1..][n.token..]))
  }

  datatype Envelope = Envelope(payloadType: bytes, payload: bytes)

  /** The bytes "DSSEv1 ", the type, a space, the payload, and the end. */
  function ReadEnvelope(s: bytes): Option<Envelope> {
    if |s| < 7 || s[..7] != [0x44, 0x53, 0x53, 0x45, 0x76, 0x31, 0x20] then None
    else
      var t := ReadField(s[7..]);
      if t.None? || t.value.rest == [] || t.value.rest[0] != 0x20 then None
      else
        var p := ReadField(t.value.rest[1..]);
        if p.None? || p.value.rest != [] then None else Some(Envelope(t.value.token, p.value.token))
  }

  lemma {:induction false} FiguresRead(ds: bytes, rest: bytes, n: nat)
    requires forall i :: 0 <= i < |ds| ==> Figure(ds[i])
    requires rest == [] || !Figure(rest[0])
    ensures ReadFigures(ds + rest, n) == Lexed(ReadFigures(ds, n).token, rest)
  {
    if ds == [] {
      assert ds + rest == rest;
    } else {
      assert (ds + rest)[1..] == ds[1..] + rest;
      FiguresRead(ds[1..], rest, 10 * n + (ds[0] - 0x30));
    }
  }

  /** One figure more at the end. */
  lemma {:induction false} FigureAfter(ds: bytes, d: byte, n: nat)
    requires (forall i :: 0 <= i < |ds| ==> Figure(ds[i])) && Figure(d)
    ensures ReadFigures(ds + [d], n).token == 10 * ReadFigures(ds, n).token + (d - 0x30)
  {
    if ds == [] {
      assert ds + [d] == [d];
      assert [d][1..] == [];
    } else {
      assert (ds + [d])[1..] == ds[1..] + [d];
      FigureAfter(ds[1..], d, 10 * n + (ds[0] - 0x30));
    }
  }

  /** The decimal text of a number reads as the number. */
  lemma {:induction false} DecimalReads(n: nat)
    ensures forall i :: 0 <= i < |DecText(n)| ==> Figure(DecText(n)[i])
    ensures ReadFigures(DecText(n), 0).token == n
  {
    if n >= 10 {
      DecimalReads(n / 10);
      FigureAfter(DecText(n / 10), n % 10 + 0x30, 0);
    } else {
      assert DecText(n)[1..] == [];
    }
  }

  lemma FieldReads(b: bytes, rest: bytes)
    ensures ReadField(Merkle.Field(b) + rest) == Some(Lexed(b, rest))
  {
    hide DecText;
    var ds, after := DecText(|b|), [0x20] + (b + rest);
    DecimalReads(|b|);
    FiguresRead(ds, after, 0);
    assert Merkle.Field(b) + rest == ds + after;
    assert after[1..] == b + rest && (b + rest)[..|b|] == b && (b + rest)[|b|..] == rest;
  }

  /** What Pae writes reads as its type in UTF-8 and its payload, in this order. */
  lemma EnvelopeReads(payloadType: string, payload: bytes)
    ensures ReadEnvelope(Merkle.Pae(payloadType, payload)) == Some(Envelope(Utf8.EncodeString(payloadType), payload))
  {
    hide ReadField, Merkle.Field, Utf8.EncodeString;
    var t := Utf8.EncodeString(payloadType);
    var after := [0x20] + Merkle.Field(payload);
    var s := Merkle.Pae(payloadType, payload);
    FieldReads(t, after);
    FieldReads(payload, []);
    assert Merkle.Field(payload) + [] == Merkle.Field(payload);
    assert s[..7] == [0x44, 0x53, 0x53, 0x45, 0x76, 0x31, 0x20];
    assert s[7..] == Merkle.Field(t) + after;
    assert after[1..] == Merkle.Field(payload);
  }
}
