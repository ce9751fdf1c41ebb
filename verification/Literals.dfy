/** The string literals of a document, and what the scan over its raw bytes decides: that
    each of them denotes a sequence of scalar values without a noncharacter. */
module Literals {
  import opened Core
  import opened Sorting
  import opened Numbers
  import opened Scan
  import opened Json
  import opened Parsed
  import opened Grammar

  /** The body of the literal at the front, between its quotes. */
  function Body(t: bytes): bytes
    requires ParseString(t).Ok?
  {
    t[1..LexBody(t[1..]).value]
  }

  /** The bodies of all literals of the value at the front, member names included. */
  function Bodies(s: bytes): seq<bytes>
    requires ReadValue(s).Some?
    decreases |s|, 0
  {
    var t := SkipSpace(s);
    if t[0] == OPEN_BRACE then MemberBodies(t[1..], [])
    else if t[0] == OPEN_BRACKET then ItemBodies(t[1..], [])
    else if t[0] == QUOTE then [Body(t)]
    else []
  }

  function ItemBodies(s: bytes, acc: seq<Value>): seq<bytes>
    requires ReadItems(s, acc).Some?
    decreases |s|, 1
  {
    var t := SkipSpace(s);
    if t[0] == CLOSE_BRACKET then []
    else
      var u := if acc == [] then t else t[1..];
      var v := ReadValue(u).value;
      Bodies(u) + ItemBodies(v.rest, acc + [v.token])
  }

  function MemberBodies(s: bytes, acc: seq<Member>): seq<bytes>
    requires ReadMembers(s, acc).Some?
    decreases |s|, 1
  {
    var t := SkipSpace(s);
    if t[0] == CLOSE_BRACE then []
    else
      var u := if acc == [] then t else t[1..];
      var name := ReadName(u).value;
      var v := ReadValue(name.rest).value;
      [Body(SkipSpace(u))] + Bodies(name.rest) + MemberBodies(v.rest, acc + [Entry(name.token, v.token)])
  }

  /** The body denotes a clean string. */
  ghost predicate Scalars(body: bytes) {
    exists s :: Clean(s) && Denotes(body, s)
  }

  ghost predicate AllScalars(bodies: seq<bytes>) {
    forall b :: b in bodies ==> Scalars(b)
  }

  lemma InBoth(a: seq<bytes>, b: seq<bytes>)
    ensures AllScalars(a + b) <==> AllScalars(a) && AllScalars(b)
  {
    hide Scalars;
    forall x | x in a || x in b ensures x in a + b {}
  }

  lemma StringScans(t: bytes)
    requires ParseString(t).Ok?
    ensures ScanDocument(t) <==> Scalars(Body(t)) && ScanDocument(ParseString(t).value.rest)
  {
    hide LexBody, ScanBody, Unquote, Clean, Denotes;
    var b := t[1..];
    AcceptedIffDenotesClean(b);
    assert b[..LexBody(b).value - 1] == Body(t);
  }

  lemma ScalarScans(t: bytes)
    requires t != [] && t[0] != OPEN_BRACE && t[0] != OPEN_BRACKET && t[0] != QUOTE && ReadScalar(t).Some?
    ensures ScanDocument(t) <==> ScanDocument(ReadScalar(t).value.rest)
  {
    hide LexNumber, ScanDocument, LiteralText;
    var rest := ReadScalar(t).value.rest;
    if t[0] == MINUS || IsDigit(t[0]) {
      var l := LexNumber(t).value.token;
      NumberNoQuote(l);
      ScanPast(LiteralText(l), rest);
    } else {
      var word := if t[0] == 0x74 then TRUE_TEXT else if t[0] == 0x66 then FALSE_TEXT else NULL_TEXT;
      assert t == word + rest;
      ScanPast(word, rest);
    }
  }

  lemma {:induction false} ValueScans(s: bytes)
    requires ReadValue(s).Some?
    ensures ScanDocument(s) <==> AllScalars(Bodies(s)) && ScanDocument(ReadValue(s).value.rest)
    decreases |s|, 0
  {
    hide ReadItems, ReadMembers, ScanDocument, Scalars, SkipSpace, ParseString, Body;
    var t := SkipSpace(s);
    ScanPastSpace(s);
    if t[0] == OPEN_BRACE {
      ScanPastByte(t);
      MembersScan(t[1..], []);
    } else if t[0] == OPEN_BRACKET {
      ScanPastByte(t);
      ItemsScan(t[1..], []);
    } else if t[0] == QUOTE {
      StringScans(t);
      assert Body(t) in [Body(t)];
    } else {
      ScalarScans(t);
    }
  }

  lemma {:induction false} ItemsScan(s: bytes, acc: seq<Value>)
    requires ReadItems(s, acc).Some?
    ensures ScanDocument(s) <==> AllScalars(ItemBodies(s, acc)) && ScanDocument(ReadItems(s, acc).value.rest)
    decreases |s|, 1
  {
    hide ReadValue, ScanDocument, AllScalars, SkipSpace, Bodies;
    var t := SkipSpace(s);
    ScanPastSpace(s);
    if t[0] == CLOSE_BRACKET {
      ScanPastByte(t);
      NoneToScan();
    } else {
      if acc != [] {
        ScanPastByte(t);
      }
      var u := if acc == [] then t else t[1..];
      var v := ReadValue(u).value;
      ValueScans(u);
      ItemsScan(v.rest, acc + [v.token]);
      InBoth(Bodies(u), ItemBodies(v.rest, acc + [v.token]));
    }
  }

  lemma NoneToScan()
    ensures AllScalars([])
  {
  }

  lemma {:induction false} MembersScan(s: bytes, acc: seq<Member>)
    requires ReadMembers(s, acc).Some?
    ensures ScanDocument(s) <==> AllScalars(MemberBodies(s, acc)) && ScanDocument(ReadMembers(s, acc).value.rest)
    decreases |s|, 1
  {
    hide ReadValue, ReadName, ScanDocument, AllScalars, Scalars, SkipSpace, Bodies, Body;
    var t := SkipSpace(s);
    ScanPastSpace(s);
    if t[0] == CLOSE_BRACE {
      ScanPastByte(t);
      NoneToScan();
    } else {
      if acc != [] {
        ScanPastByte(t);
      }
      var u := if acc == [] then t else t[1..];
      var name := ReadName(u).value;
      var v := ReadValue(name.rest).value;
      NameScans(u);
      ValueScans(name.rest);
      var further := MemberBodies(v.rest, acc + [Entry(name.token, v.token)]);
      MembersScan(v.rest, acc + [Entry(name.token, v.token)]);
      var first := [Body(SkipSpace(u))];
      InBoth(first + Bodies(name.rest), further);
      InBoth(first, Bodies(name.rest));
      OneToScan(Body(SkipSpace(u)));
    }
  }

  lemma OneToScan(b: bytes)
    ensures AllScalars([b]) <==> Scalars(b)
  {
    hide Scalars;
    assert b in [b];
  }

  lemma NameScans(u: bytes)
    requires ReadName(u).Some?
    ensures ParseString(SkipSpace(u)).Ok?
    ensures ScanDocument(u) <==> Scalars(Body(SkipSpace(u))) && ScanDocument(ReadName(u).value.rest)
  {
    hide ParseString, ScanDocument, Scalars, SkipSpace, Body;
    var t := SkipSpace(u);
    ScanPastSpace(u);
    StringScans(t);
    var rest := ParseString(t).value.rest;
    ScanPastSpace(rest);
    ScanPastByte(SkipSpace(rest));
  }

  /** checkStringScalars accepts a syntactically valid document exactly when every string
      literal in it, name or value, at any depth, denotes a clean string. */
  lemma DocumentScanExactly(raw: bytes)
    requires Grammatical(raw).Some?
    ensures ScanDocument(raw) <==> AllScalars(Bodies(raw))
  {
    hide ReadValue, ScanDocument, AllScalars, Bodies;
    ValueScans(raw);
    var rest := ReadValue(raw).value.rest;
    ScanPastSpace(rest);
    EndScans();
  }

  lemma EndScans()
    ensures ScanDocument([])
  {
  }
}
