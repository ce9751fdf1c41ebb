/** ParseStatement (aee/types.go): the strict pass over the raw bytes in front of the
    parse, and on which documents it does what it is there for. */
module Ingest {
  import opened Core
  import opened Codes
  import opened Numbers
  import opened Scan
  import opened Sorting
  import opened Json
  import opened Grammar
  import opened Literals
  import opened Codec
  import opened Statements
  import opened Parsed
  import RoundTrip

  /** What encoding/json makes of the envelope; predicate_ is None when absent, and holds
      None when it is no object. */
  datatype RawStatement = RawStatement(
    type_: Option<string>, subject: seq<DigestSet>, predicateType: Option<string>, predicate_: Option<Option<RawPredicate>>)

  /** The errors of the strict pass that refuse the statement. */
  predicate Promoted(e: ParseError) {
    e == DuplicateMember || e == NotScalar || e == TooDeep
  }

  predicate ProfileFault(raw: bytes) {
    ParseJson(raw).Err? && Promoted(ParseJson(raw).error)
  }

  function OrEmpty(s: Option<string>): string {
    if s.Some? then s.value else ""
  }

  const EMPTY_PREDICATE: Predicate :=
    Predicate(false, "", false, None, None, false, [], false, [], false, "", false, "", false)

  /** The condition of ParseStatement to return a statement. */
  predicate LetsThrough(raw: bytes, shadow: Option<RawStatement>) {
    shadow.Some? && !ProfileFault(raw) && shadow.value.predicate_.Some?
  }

  /** ParseStatement, with what json.Unmarshal returned for the envelope. */
  method ParseStatement(raw: bytes, shadow: Option<RawStatement>) returns (s: Option<Statement>)
    ensures s.Some? <==> LetsThrough(raw, shadow)
    ensures s.Some? ==>
              && WellParsed(s.value.predicate_, s.value.parseCodes)
              && s.value.type_ == OrEmpty(shadow.value.type_) && s.value.predicateType == OrEmpty(shadow.value.predicateType)
              && s.value.subject == shadow.value.subject
              && (shadow.value.predicate_.value.Some? ==>
                    PredicateReads(shadow.value.predicate_.value.value, s.value.predicate_)
                    && CodeSet(s.value.parseCodes) == ParseFaults(shadow.value.predicate_.value.value))
  {
    hide ParseJson, PredicateReads, ParseFaults;
    if shadow.None? {
      return None;
    }
    var v := ParseJsonValue(raw);
    if v.Err? && Promoted(v.error) {
      return None;
    }
    var r := shadow.value;
    if r.predicate_.None? {
      return None;
    }
    var p, codes: CodeList := EMPTY_PREDICATE, [];
    if r.predicate_.value.None? {
      codes := AppendCode(codes, StatementMalformed);
    } else {
      p, codes := ParsePredicate(r.predicate_.value.value);
    }
    return Some(Statement(OrEmpty(r.type_), OrEmpty(r.predicateType), r.subject, p, codes));
  }

  // ----- what the strict pass is for -----

  /** The document repeats a member, nests past the bound or has a string literal that
      denotes no sequence of clean scalar values. */
  ghost predicate Unfaithful(raw: bytes)
    requires Grammatical(raw).Some?
  {
    var v := Grammatical(raw).value;
    !NoRepeats(v) || Depth(v) > MAX_DEPTH || !AllScalars(Bodies(raw))
  }

  /** The pass is described as keeping every statement whose bytes do not decode
      faithfully from the gates. On every syntactically valid document it does so
      exactly when no number off the profile is read before the first repeated member
      and the first container past the bound. A number anywhere hides a string fault
      anywhere, since strings are scanned after the whole decode. */
  lemma ProfileFaultExactly(raw: bytes)
    requires Grammatical(raw).Some?
    ensures ProfileFault(raw) <==> Unfaithful(raw) && !NumberFirst(Grammatical(raw).value, MAX_DEPTH)
  {
    hide Grammatical, ParseWithin, ScanDocument, NumberFirst, NoRepeats, Depth, Profiled, FirstFault, Events, AllScalars, Bodies;
    var v := Grammatical(raw).value;
    StrictExactly(raw, MAX_DEPTH);
    FirstFaultMeans(v, MAX_DEPTH);
    NoFaultMeans(v, MAX_DEPTH);
    DocumentScanExactly(raw);
  }

  /** A string fault is refused exactly when no such number comes first. */
  lemma StringFaultRefused(raw: bytes)
    requires Grammatical(raw).Some? && !AllScalars(Bodies(raw))
    ensures ProfileFault(raw) <==> !NumberFirst(Grammatical(raw).value, MAX_DEPTH)
  {
    ProfileFaultExactly(raw);
  }

  /** So is a repeated member. */
  lemma RepeatRefused(raw: bytes)
    requires Grammatical(raw).Some? && !NoRepeats(Grammatical(raw).value)
    ensures ProfileFault(raw) <==> !NumberFirst(Grammatical(raw).value, MAX_DEPTH)
  {
    ProfileFaultExactly(raw);
  }

  /** Where every number is on the profile, a document that is not refused has distinct
      member names and strings of clean scalar values at every depth. */
  lemma ProfileHolds(raw: bytes)
    requires Grammatical(raw).Some? && Profiled(Grammatical(raw).value) && !ProfileFault(raw)
    ensures WellFormed(Grammatical(raw).value) && AllScalars(Bodies(raw)) && Depth(Grammatical(raw).value) <= MAX_DEPTH
  {
    hide Grammatical, ParseWithin, ScanDocument, NoRepeats, Depth, WellFormed, FirstFault, Events, Profiled, AllScalars, Bodies;
    var v := Grammatical(raw).value;
    StrictExactly(raw, MAX_DEPTH);
    FirstFaultMeans(v, MAX_DEPTH);
    ProfiledNumbers(v, MAX_DEPTH);
    NoFaultMeans(v, MAX_DEPTH);
    ParseJsonWellFormed(raw, MAX_DEPTH);
    DocumentScanExactly(raw);
  }

  // ----- two statements that pass -----

  /** What is used of json.Unmarshal into the envelope: it takes an object none of whose
      names can match a field other than predicate, up to letter case, and keeps the
      predicate. */
  predicate EnvelopeReads(raw: bytes, shadow: Option<RawStatement>) {
    (Grammatical(raw).Some? && Grammatical(raw).value.Obj? && Others(Grammatical(raw).value.members)
     && HasName(Grammatical(raw).value.members, "predicate")) ==> shadow.Some? && shadow.value.predicate_.Some?
  }

  /** No name is as long as _type, subject or predicateType. */
  predicate Others(members: seq<Member>) {
    forall i :: 0 <= i < |members| ==> |members[i].name| !in {|"_type"|, |"subject"|, |"predicateType"|}
  }

  /** The number 1.5. */
  const FRACTION: Number := Literal(false, [0x31], Some([0x35]), None)

  /** A string of one unpaired surrogate, written as an escape. */
  const LONE: bytes := [QUOTE, BACKSLASH, 0x75, 0x64, 0x38, 0x30, 0x30, QUOTE]

  /** The text {"predicate":{"a":"\ud800"},"n":1.5}. */
  const SURROGATE_STATEMENT: bytes :=
    [OPEN_BRACE] + Field("predicate", [OPEN_BRACE] + Field("a", LONE + ([CLOSE_BRACE] + ([COMMA]
    + Field("n", LiteralText(FRACTION) + [CLOSE_BRACE])))))

  /** The text {"n":1.5,"predicate":{"a":null,"a":null}}. */
  const REPEAT_STATEMENT: bytes :=
    [OPEN_BRACE] + Field("n", LiteralText(FRACTION) + ([COMMA] + Field("predicate", [OPEN_BRACE]
    + Field("a", NULL_TEXT + ([COMMA] + Field("a", NULL_TEXT + ([CLOSE_BRACE] + [CLOSE_BRACE])))))))

  /** ParseStatement lets a statement through whose predicate holds an unpaired
      surrogate: the fraction after it stops the pass before strings are scanned. */
  lemma NumberHidesSurrogate(shadow: Option<RawStatement>)
    requires EnvelopeReads(SURROGATE_STATEMENT, shadow)
    ensures Grammatical(SURROGATE_STATEMENT).Some? && !AllScalars(Bodies(SURROGATE_STATEMENT))
    ensures LetsThrough(SURROGATE_STATEMENT, shadow)
  {
    hide ScanDocument, ProfileFault, NumberFirst, NoRepeats, Profiled, Depth, Field, AllScalars, Bodies;
    var s := SurrogateRead();
    var raw := SURROGATE_STATEMENT;
    FractionOff();
    SurrogateScanned();
    DocumentScanExactly(raw);
    SurrogateInOrder(s);
    OnlyNumbers(Grammatical(raw).value, MAX_DEPTH);
    StringFaultRefused(raw);
    assert Grammatical(raw).value.members[0].name == "predicate";
  }

  /** And one whose predicate repeats a member, when the fraction stands before it. */
  lemma NumberHidesRepeat(shadow: Option<RawStatement>)
    requires EnvelopeReads(REPEAT_STATEMENT, shadow)
    ensures Grammatical(REPEAT_STATEMENT).Some? && !NoRepeats(Grammatical(REPEAT_STATEMENT).value)
    ensures LetsThrough(REPEAT_STATEMENT, shadow)
  {
    hide ScanDocument, ProfileFault, NumberFirst, Field, Depth;
    RepeatRead();
    var raw := REPEAT_STATEMENT;
    var members := Grammatical(raw).value.members;
    FractionOff();
    LeadingNumber(members, MAX_DEPTH);
    var inner := members[1].value.members;
    assert Names(inner)[0] == Names(inner)[1];
    assert !NoRepeats(members[1].value);
    RepeatRefused(raw);
    assert members[1].name == "predicate";
  }

  lemma FractionOff()
    ensures LiteralOk(FRACTION) && !Profiled(Num(FRACTION)) && FracText(FRACTION.frac) == [DOT, 0x35]
  {
    assert Digits(FRACTION) == [0x31, 0x35];
    assert DigitsValue([0x31]) == 1 by {
      assert [0x31][..0] == [];
    }
    assert DigitsValue([0x31, 0x35]) == 15 by {
      assert [0x31, 0x35][..1] == [0x31];
    }
    assert Mantissa(FRACTION) == 15 && Scale(FRACTION) == -1;
    assert Pow10(1) == 10 by {
      assert Pow10(0) == 1;
    }
  }

  lemma LoneRead(rest: bytes) returns (s: string)
    ensures ReadValue(LONE + rest) == Some(Lexed(Str(s), rest))
    ensures !ScanDocument(LONE + rest)
  {
    hide Unquote;
    var t := LONE + rest;
    var body := t[1..];
    assert body[2..][0] == 0x64 && body[2..][1] == 0x38 && body[2..][2] == 0x30 && body[2..][3] == 0x30;
    assert Hex4(body[2..]) == Some(0xD800);
    assert body[6..][0] == QUOTE;
    assert LexBody(body[6..]) == Some(1);
    assert LexBody(body) == Some(7);
    assert t[8..] == rest;
    assert EscapeSpan(body).None?;
    assert Step(body).None?;
    assert ScanBody(body).None?;
    s := Unquote(t[1..7]);
  }

  lemma SurrogateRead() returns (s: string)
    ensures Grammatical(SURROGATE_STATEMENT)
            == Some(Obj([Entry("predicate", Obj([Entry("a", Str(s))])), Entry("n", Num(FRACTION))]))
  {
    hide ReadValue, ReadMembers, Field, LiteralText;
    var last := LiteralText(FRACTION) + [CLOSE_BRACE];
    var tail := [COMMA] + Field("n", last);
    var inner := LONE + ([CLOSE_BRACE] + tail);
    s := LoneRead([CLOSE_BRACE] + tail);
    FieldRead(Field("a", inner), "a", inner, [], [Entry("a", Str(s))]);
    CloseRead(tail, [Entry("a", Str(s))]);
    ObjectRead(Field("a", inner));
    var nested := [OPEN_BRACE] + Field("a", inner);
    var first := Entry("predicate", Obj([Entry("a", Str(s))]));
    FieldRead(Field("predicate", nested), "predicate", nested, [], [first]);
    FractionOff();
    NumberRead(FRACTION, [CLOSE_BRACE]);
    FieldRead(tail, "n", last, [first], [first, Entry("n", Num(FRACTION))]);
    CloseRead([], [first, Entry("n", Num(FRACTION))]);
    assert [CLOSE_BRACE] + [] == [CLOSE_BRACE];
    ObjectRead(Field("predicate", nested));
  }

  lemma SurrogateInOrder(s: string)
    ensures var v := Obj([Entry("predicate", Obj([Entry("a", Str(s))])), Entry("n", Num(FRACTION))]);
            NoRepeats(v) && Depth(v) <= MAX_DEPTH && !Profiled(v)
  {
    hide CheckSafeInteger;
    FractionOff();
    var inner := [Entry("a", Str(s))];
    var members := [Entry("predicate", Obj(inner)), Entry("n", Num(FRACTION))];
    assert "predicate"[0] != "n"[0];
    assert Names(inner) == ["a"] && Names(members) == ["predicate", "n"];
    assert NoRepeats(Obj(inner)) && NoRepeats(Obj(members));
    assert MembersDepth(inner[1..]) == 0 && MembersDepth(inner) == 0;
    assert Depth(Obj(inner)) == 1;
    assert members[1..] == [members[1]] && members[1..][1..] == [];
    assert MembersDepth(members[1..]) == 0;
    assert Depth(Obj(members)) == 2;
    assert !Profiled(members[1].value);
  }

  lemma SurrogateScanned()
    ensures !ScanDocument(SURROGATE_STATEMENT)
  {
    hide ScanDocument, LiteralText;
    var inner := LONE + ([CLOSE_BRACE] + ([COMMA] + Field("n", LiteralText(FRACTION) + [CLOSE_BRACE])));
    var s := LoneRead([CLOSE_BRACE] + ([COMMA] + Field("n", LiteralText(FRACTION) + [CLOSE_BRACE])));
    FieldScanned("a", inner);
    ScanPast([OPEN_BRACE], Field("a", inner));
    FieldScanned("predicate", [OPEN_BRACE] + Field("a", inner));
    ScanPast([OPEN_BRACE], Field("predicate", [OPEN_BRACE] + Field("a", inner)));
  }

  lemma FieldScanned(name: string, value: bytes)
    requires Clean(name)
    ensures ScanDocument(Field(name, value)) == ScanDocument(value)
  {
    hide ScanDocument, JcsString;
    StringPassed(name, [COLON] + value);
    ScanPast([COLON], value);
  }

  lemma RepeatRead()
    ensures Grammatical(REPEAT_STATEMENT)
            == Some(Obj([Entry("n", Num(FRACTION)), Entry("predicate", Obj([Entry("a", Null), Entry("a", Null)]))]))
  {
    hide ReadValue, ReadMembers, Field, LiteralText;
    var close := [CLOSE_BRACE] + [CLOSE_BRACE];
    var second := NULL_TEXT + close;
    var first := NULL_TEXT + ([COMMA] + Field("a", second));
    NullRead([COMMA] + Field("a", second));
    NullRead(close);
    FieldRead(Field("a", first), "a", first, [], [Entry("a", Null)]);
    FieldRead([COMMA] + Field("a", second), "a", second, [Entry("a", Null)], [Entry("a", Null), Entry("a", Null)]);
    CloseRead([CLOSE_BRACE], [Entry("a", Null), Entry("a", Null)]);
    ObjectRead(Field("a", first));
    var nested := [OPEN_BRACE] + Field("a", first);
    var number := LiteralText(FRACTION) + ([COMMA] + Field("predicate", nested));
    FractionOff();
    NumberRead(FRACTION, [COMMA] + Field("predicate", nested));
    var entry := Entry("n", Num(FRACTION));
    FieldRead(Field("n", number), "n", number, [], [entry]);
    FieldRead([COMMA] + Field("predicate", nested), "predicate", nested, [entry],
      [entry, Entry("predicate", Obj([Entry("a", Null), Entry("a", Null)]))]);
    CloseRead([], [Entry("n", Num(FRACTION)), Entry("predicate", Obj([Entry("a", Null), Entry("a", Null)]))]);
    assert [CLOSE_BRACE] + [] == [CLOSE_BRACE];
    ObjectRead(Field("n", number));
  }

  lemma NullRead(rest: bytes)
    ensures ReadValue(NULL_TEXT + rest) == Some(Lexed(Null, rest))
  {
    var t := NULL_TEXT + rest;
    assert SkipSpace(t) == t;
    RoundTrip.WordReads(NULL_TEXT, Null, rest);
  }
}
