/** The run binding: its pre-image, that the pre-image is the RFC 8785 text of the
    object it stands for, and that it commits to all seven inputs. */
module Binding {
  import opened Core
  import opened Order
  import opened Sorting
  import opened Scan
  import opened Json
  import RoundTrip
  import Utf8

  const BINDING_VERSION: string := "2"

  /** The seven inputs, in the order of their member names. */
  datatype Inputs = Inputs(
    catchPolicy: string,
    corpus: string,
    networkPosture: string,
    observationVocabulary: string,
    runEntropy: string,
    subject: string,
    substrate: string)

  /** Characters of an absent digest ("") or a hexadecimal one. */
  predicate HexInputs(b: Inputs) {
    && HexString(b.catchPolicy) && HexString(b.corpus) && HexString(b.networkPosture)
    && HexString(b.observationVocabulary) && HexString(b.runEntropy) && HexString(b.subject)
    && HexString(b.substrate)
  }

  /** The %q verb on a string that needs no escaping. */
  function Quoted(s: string): bytes {
    [QUOTE] + (Utf8.EncodeString(s) + [QUOTE])
  }

  predicate PlainName(name: string) {
    forall i :: 0 <= i < |name| ==> 0x20 <= name[i] as int < 0x7F && name[i] != '\"' && name[i] != '\\'
  }

  /** The stretch ,"name": of the format string. */
  function Label(name: string): bytes
    requires PlainName(name)
  {
    [COMMA, QUOTE] + Ascii(name) + [QUOTE, COLON]
  }

  /** The stretch {"aeeBindingVersion":"2" that opens it. */
  function Opening(): bytes {
    [OPEN_BRACE, QUOTE] + Ascii("aeeBindingVersion") + [QUOTE, COLON, QUOTE] + Ascii(BINDING_VERSION) + [QUOTE]
  }

  function FieldAt(b: Inputs, k: nat): string {
    if k == 0 then b.catchPolicy
    else if k == 1 then b.corpus
    else if k == 2 then b.networkPosture
    else if k == 3 then b.observationVocabulary
    else if k == 4 then b.runEntropy
    else if k == 5 then b.subject
    else b.substrate
  }

  function NameAt(k: nat): (name: string)
    ensures PlainName(name)
  {
    if k == 0 then "catchPolicy"
    else if k == 1 then "corpus"
    else if k == 2 then "networkPosture"
    else if k == 3 then "observationVocabulary"
    else if k == 4 then "runEntropy"
    else if k == 5 then "subject"
    else "substrate"
  }

  /** The format string from the label of the k-th hole on. */
  function Tail(b: Inputs, k: nat): bytes
    decreases 7 - k
  {
    if k < 7 then Label(NameAt(k)) + (Quoted(FieldAt(b, k)) + Tail(b, k + 1)) else [CLOSE_BRACE]
  }

  /** RunBindingPreimage: the format string with its seven quoted holes. */
  function Preimage(b: Inputs): bytes {
    Opening() + Tail(b, 0)
  }

  /** DeriveRunBinding. */
  function DeriveRunBinding(b: Inputs): (binding: string)
    ensures IsLowerHex64(binding)
  {
    SHA256Hex(Preimage(b))
  }

  // ----- the pre-image determines the inputs -----

  lemma {:induction false} HexEncodes(s: string)
    requires HexString(s)
    ensures Utf8.EncodeString(s) == Ascii(s) == JcsChars(s)
    ensures forall i :: 0 <= i < |Ascii(s)| ==> Ascii(s)[i] != QUOTE
  {
    hide JcsChar, Utf8.Encode;
    if s == [] {
      NothingEncoded();
    } else {
      HexEncodes(s[1..]);
      OneByte(s[0]);
      assert Ascii(s) == [s[0] as int] + Ascii(s[1..]);
    }
  }

  lemma NothingEncoded()
    ensures Utf8.EncodeString("") == Ascii("") == JcsChars("") == []
  {
  }

  /** A hexadecimal digit is one byte, written as itself. */
  lemma OneByte(c: char)
    requires HexString([c])
    ensures Utf8.Encode(c) == JcsChar(c) == [c as int] && c as int != QUOTE
  {
    assert [c][0] == c;
  }

  /** A quoted hexadecimal string delimits itself. */
  lemma QuotedUnique(s: string, x: bytes, t: string, y: bytes)
    requires HexString(s) && HexString(t) && Quoted(s) + x == Quoted(t) + y
    ensures s == t && x == y
  {
    hide Utf8.EncodeString, Ascii, JcsChars, HexString;
    var a, b := Utf8.EncodeString(s), Utf8.EncodeString(t);
    HexEncodes(s);
    HexEncodes(t);
    assert (Quoted(s) + x)[1..] == a + ([QUOTE] + x);
    assert (Quoted(t) + y)[1..] == b + ([QUOTE] + y);
    UntilQuote(a, x, b, y);
    Utf8.EncodeStringInjective(s, t);
  }

  lemma UntilQuote(a: bytes, x: bytes, b: bytes, y: bytes)
    requires forall i :: 0 <= i < |a| ==> a[i] != QUOTE
    requires forall i :: 0 <= i < |b| ==> b[i] != QUOTE
    requires a + ([QUOTE] + x) == b + ([QUOTE] + y)
    ensures a == b && x == y
  {
    CountOf(a, x);
    CountOf(b, y);
    var p, q := a + ([QUOTE] + x), b + ([QUOTE] + y);
    assert a == p[..|a|] && b == q[..|b|];
    assert x == p[|a| + 1..] && y == q[|b| + 1..];
  }

  /** Bytes before the first quote. */
  function Count(s: bytes): nat {
    if s == [] || s[0] == QUOTE then 0 else 1 + Count(s[1..])
  }

  lemma {:induction false} CountOf(a: bytes, x: bytes)
    requires forall i :: 0 <= i < |a| ==> a[i] != QUOTE
    ensures Count(a + ([QUOTE] + x)) == |a|
  {
    if a == [] {
      assert a + ([QUOTE] + x) == [QUOTE] + x;
    } else {
      assert (a + ([QUOTE] + x))[1..] == a[1..] + ([QUOTE] + x);
      CountOf(a[1..], x);
    }
  }

  lemma Peel(lead: bytes, s: string, x: bytes, t: string, y: bytes)
    requires HexString(s) && HexString(t)
    requires lead + (Quoted(s) + x) == lead + (Quoted(t) + y)
    ensures s == t && x == y
  {
    assert (lead + (Quoted(s) + x))[|lead|..] == Quoted(s) + x;
    assert (lead + (Quoted(t) + y))[|lead|..] == Quoted(t) + y;
    QuotedUnique(s, x, t, y);
  }

  lemma {:induction false} TailInjective(a: Inputs, b: Inputs, k: nat)
    requires HexInputs(a) && HexInputs(b) && k <= 7 && Tail(a, k) == Tail(b, k)
    ensures forall j :: k <= j < 7 ==> FieldAt(a, j) == FieldAt(b, j)
    decreases 7 - k
  {
    hide Label, Quoted, HexString, NameAt;
    if k < 7 {
      Peel(Label(NameAt(k)), FieldAt(a, k), Tail(a, k + 1), FieldAt(b, k), Tail(b, k + 1));
      TailInjective(a, b, k + 1);
    }
  }

  lemma PreimageInjective(a: Inputs, b: Inputs)
    requires HexInputs(a) && HexInputs(b) && Preimage(a) == Preimage(b)
    ensures a == b
  {
    hide Tail, HexString, FieldAt, Opening;
    assert Preimage(a)[|Opening()|..] == Tail(a, 0) && Preimage(b)[|Opening()|..] == Tail(b, 0);
    TailInjective(a, b, 0);
    FieldsDetermine(a, b);
  }

  lemma FieldsDetermine(a: Inputs, b: Inputs)
    requires forall j :: 0 <= j < 7 ==> FieldAt(a, j) == FieldAt(b, j)
    ensures a == b
  {
    assert FieldAt(a, 0) == FieldAt(b, 0) && FieldAt(a, 1) == FieldAt(b, 1) && FieldAt(a, 2) == FieldAt(b, 2)
        && FieldAt(a, 3) == FieldAt(b, 3) && FieldAt(a, 4) == FieldAt(b, 4) && FieldAt(a, 5) == FieldAt(b, 5)
        && FieldAt(a, 6) == FieldAt(b, 6);
  }

  /** Equal bindings: equal inputs, or a collision of the two pre-images. */
  lemma BindingCommits(a: Inputs, b: Inputs)
    requires HexInputs(a) && HexInputs(b) && DeriveRunBinding(a) == DeriveRunBinding(b)
    ensures a == b || Collides(Preimage(a), Preimage(b))
  {
    hide HexInputs, Preimage;
    SHA256HexBinds(Preimage(a), Preimage(b));
    if Preimage(a) == Preimage(b) {
      PreimageInjective(a, b);
    }
  }

  // ----- the pre-image is canonical JSON -----

  /** The object the pre-image stands for. */
  function BindingObject(b: Inputs): Value {
    Obj([
      Entry("aeeBindingVersion", Str(BINDING_VERSION)),
      Entry("catchPolicy", Str(b.catchPolicy)),
      Entry("corpus", Str(b.corpus)),
      Entry("networkPosture", Str(b.networkPosture)),
      Entry("observationVocabulary", Str(b.observationVocabulary)),
      Entry("runEntropy", Str(b.runEntropy)),
      Entry("subject", Str(b.subject)),
      Entry("substrate", Str(b.substrate))])
  }

  /** Plain printable ASCII is written as it stands. */
  lemma {:induction false} JcsPlain(s: string)
    requires PlainName(s)
    ensures JcsChars(s) == Ascii(s)
  {
    if s != [] {
      JcsPlain(s[1..]);
    }
  }

  /** The first difference decides, below the surrogates. */
  lemma {:induction false} LessAt(a: string, b: string, i: nat)
    requires i < |a| && i < |b| && a[..i] == b[..i] && a[i] < b[i] && b[i] as int < 0xD800
    ensures Utf16Less(a, b)
  {
    if i == 0 {
      UnitsOrder(a[0], Utf16(a[1..]), b[0], Utf16(b[1..]));
    } else {
      assert a[0] == a[..i][0] == b[..i][0] == b[0];
      assert a[1..][..i - 1] == a[..i][1..] && b[1..][..i - 1] == b[..i][1..];
      LessAt(a[1..], b[1..], i - 1);
      LexCommonPrefix(Units(a[0]), Utf16(a[1..]), Utf16(b[1..]));
    }
  }

  lemma BindingNamesAscending(b: Inputs)
    ensures StrictlyAscending(Names(BindingObject(b).members))
  {
    hide Utf16Less;
    var ns := Names(BindingObject(b).members);
    forall i | 1 <= i < |ns| ensures Utf16Less(ns[i - 1], ns[i]) {
      if i == 1 { LessAt("aeeBindingVersion", "catchPolicy", 0); }
      else if i == 2 { LessAt("catchPolicy", "corpus", 1); }
      else if i == 3 { LessAt("corpus", "networkPosture", 0); }
      else if i == 4 { LessAt("networkPosture", "observationVocabulary", 0); }
      else if i == 5 { LessAt("observationVocabulary", "runEntropy", 0); }
      else if i == 6 { LessAt("runEntropy", "subject", 0); }
      else { LessAt("subject", "substrate", 3); }
    }
    AdjacentIsGlobal(ns);
  }

  /** RunBindingPreimage emits the RFC 8785 bytes of the binding object. */
  lemma PreimageIsCanonical(b: Inputs)
    requires HexInputs(b)
    ensures Preimage(b) == Canon(BindingObject(b))
  {
    hide Utf16Less, JcsChars, Ascii, HexString, Quoted, MembersText, CanonMembers, StrictlyAscending, Sort, Tail;
    var ms := BindingObject(b).members;
    BindingNamesAscending(b);
    SortFixed(ms, NameOf);
    RoundTrip.CanonSorted(ms);
    ObjectFields(b);
    TailText(ms, b, 0);
    OpeningText(b);
  }

  /** A label is what the canonical writer emits for a member name. */
  lemma LabelText(name: string)
    requires PlainName(name)
    ensures Label(name) == [COMMA] + JcsString(name) + [COLON]
  {
    JcsPlain(name);
  }

  lemma QuotedIsJcs(s: string)
    requires HexString(s)
    ensures Quoted(s) == JcsString(s)
  {
    HexEncodes(s);
  }

  /** After the version member come the seven fields. */
  predicate Fielded(ms: seq<Member>, b: Inputs) {
    |ms| == 8 && forall i :: 1 <= i < 8 ==> ms[i] == Entry(NameAt(i - 1), Str(FieldAt(b, i - 1)))
  }

  lemma ObjectFields(b: Inputs)
    ensures Fielded(BindingObject(b).members, b)
  {
  }

  lemma FieldHex(b: Inputs, k: nat)
    requires HexInputs(b)
    ensures HexString(FieldAt(b, k))
  {
    hide HexString;
  }

  /** The members from the k-th field on. */
  lemma {:induction false} TailText(ms: seq<Member>, b: Inputs, k: nat)
    requires HexInputs(b) && Fielded(ms, b) && k <= 7
    ensures Tail(b, k) == MembersText(CanonMembers(ms[k + 1..]), false) + [CLOSE_BRACE]
    decreases 7 - k
  {
    hide JcsString, Quoted, HexInputs, Label, FieldAt, NameAt, CanonMembers, MembersText;
    if k < 7 {
      var m := ms[k + 1];
      assert ms[k + 1..] == [m] + ms[k + 2..];
      TailText(ms, b, k + 1);
      LabelText(m.name);
      OneMember(m, ms[k + 2..], false);
      FieldHex(b, k);
      QuotedIsJcs(FieldAt(b, k));
    } else {
      assert ms[8..] == [];
      NoMembersText();
    }
  }

  lemma NoMembersText()
    ensures MembersText(CanonMembers([]), false) == []
  {
  }

  lemma OneMember(m: Member, ms: seq<Member>, first: bool)
    requires m.value.Str?
    ensures MembersText(CanonMembers([m] + ms), first)
            == ((if first then [] else [COMMA]) + JcsString(m.name) + [COLON])
               + (JcsString(m.value.s) + MembersText(CanonMembers(ms), false))
  {
    hide JcsString;
    assert ([m] + ms)[1..] == ms;
    var ts := CanonMembers([m] + ms);
    assert ts[1..] == CanonMembers(ms);
  }

  lemma OpeningText(b: Inputs)
    requires Tail(b, 0) == MembersText(CanonMembers(BindingObject(b).members[1..]), false) + [CLOSE_BRACE]
    ensures [OPEN_BRACE] + MembersText(CanonMembers(BindingObject(b).members), true) + [CLOSE_BRACE] == Opening() + Tail(b, 0)
  {
    hide JcsChars, Ascii, Tail, MembersText, CanonMembers;
    var ms := BindingObject(b).members;
    assert ms == [ms[0]] + ms[1..];
    OneMember(ms[0], ms[1..], true);
    JcsPlain("aeeBindingVersion");
    JcsPlain(BINDING_VERSION);
    OpeningRegroup(Ascii("aeeBindingVersion"), Ascii(BINDING_VERSION), MembersText(CanonMembers(ms[1..]), false));
  }

  lemma OpeningRegroup(a: bytes, v: bytes, t: bytes)
    ensures [OPEN_BRACE] + (([] + ([QUOTE] + a + [QUOTE]) + [COLON]) + (([QUOTE] + v + [QUOTE]) + t)) + [CLOSE_BRACE]
            == ([OPEN_BRACE, QUOTE] + a + [QUOTE, COLON, QUOTE] + v + [QUOTE]) + (t + [CLOSE_BRACE])
  {
  }

  // ----- the format string -----

  /** A label, a value, the closing quote, and what follows. */
  function Hole(label_: string, value: string, rest: string): string {
    label_ + (value + ("\"" + rest))
  }

  /** The pre-image as one text with its seven holes filled. */
  function Template(b: Inputs): string {
    "{\"aeeBindingVersion\":\"2\""
    + Hole(",\"catchPolicy\":\"", b.catchPolicy,
      Hole(",\"corpus\":\"", b.corpus,
      Hole(",\"networkPosture\":\"", b.networkPosture,
      Hole(",\"observationVocabulary\":\"", b.observationVocabulary,
      Hole(",\"runEntropy\":\"", b.runEntropy,
      Hole(",\"subject\":\"", b.subject,
      Hole(",\"substrate\":\"", b.substrate, "}")))))))
  }

  lemma {:induction false} AsciiEncodes(s: string)
    requires forall i :: 0 <= i < |s| ==> s[i] as int < 128
    ensures Utf8.EncodeString(s) == Ascii(s)
  {
    if s != [] {
      AsciiEncodes(s[1..]);
      assert Ascii(s) == [s[0] as int] + Ascii(s[1..]);
    }
  }

  lemma HoleEncodes(name: string, label_: string, value: string, rest: string, text: bytes)
    requires PlainName(name) && label_ == ",\"" + name + "\":\"" && text == Utf8.EncodeString(rest)
    ensures Label(name) + (Quoted(value) + text) == Utf8.EncodeString(Hole(label_, value, rest))
  {
    hide Utf8.EncodeString, Ascii;
    var quoted := "\"" + rest;
    Utf8.EncodeStringAppend(label_, value + quoted);
    Utf8.EncodeStringAppend(value, quoted);
    Utf8.EncodeStringAppend("\"", rest);
    AsciiEncodes(label_);
    AsciiEncodes("\"");
    assert Ascii("\"") == [QUOTE];
    LabelBytes(name, label_);
  }

  lemma LabelBytes(name: string, label_: string)
    requires PlainName(name) && label_ == ",\"" + name + "\":\""
    ensures forall i :: 0 <= i < |label_| ==> label_[i] as int < 128
    ensures Ascii(label_) == Label(name) + [QUOTE]
  {
  }

  /** The labels of the format string. */
  lemma FirstLabels()
    ensures ",\"catchPolicy\":\"" == ",\"" + "catchPolicy" + "\":\"" && PlainName("catchPolicy")
    ensures ",\"corpus\":\"" == ",\"" + "corpus" + "\":\"" && PlainName("corpus")
    ensures ",\"networkPosture\":\"" == ",\"" + "networkPosture" + "\":\"" && PlainName("networkPosture")
  {
  }

  lemma MiddleLabels()
    ensures ",\"observationVocabulary\":\"" == ",\"" + "observationVocabulary" + "\":\"" && PlainName("observationVocabulary")
    ensures ",\"runEntropy\":\"" == ",\"" + "runEntropy" + "\":\"" && PlainName("runEntropy")
  {
  }

  lemma LastLabels()
    ensures ",\"subject\":\"" == ",\"" + "subject" + "\":\"" && PlainName("subject")
    ensures ",\"substrate\":\"" == ",\"" + "substrate" + "\":\"" && PlainName("substrate")
  {
  }

  function LastHoles(b: Inputs): string {
    Hole(",\"observationVocabulary\":\"", b.observationVocabulary,
    Hole(",\"runEntropy\":\"", b.runEntropy,
    Hole(",\"subject\":\"", b.subject,
    Hole(",\"substrate\":\"", b.substrate, "}"))))
  }

  lemma LastHolesEncode(b: Inputs)
    ensures Tail(b, 3) == Utf8.EncodeString(LastHoles(b))
  {
    hide Utf8.EncodeString, Ascii, Quoted, Label, Hole, PlainName;
    var t6 := Hole(",\"substrate\":\"", b.substrate, "}");
    var t5 := Hole(",\"subject\":\"", b.subject, t6);
    var t4 := Hole(",\"runEntropy\":\"", b.runEntropy, t5);
    assert Tail(b, 7) == Utf8.EncodeString("}") by { BraceEncodes(); }
    MiddleLabels();
    LastLabels();
    HoleEncodes("substrate", ",\"substrate\":\"", b.substrate, "}", Tail(b, 7));
    HoleEncodes("subject", ",\"subject\":\"", b.subject, t6, Tail(b, 6));
    HoleEncodes("runEntropy", ",\"runEntropy\":\"", b.runEntropy, t5, Tail(b, 5));
    HoleEncodes("observationVocabulary", ",\"observationVocabulary\":\"", b.observationVocabulary, t4, Tail(b, 4));
  }

  lemma FirstHolesEncode(b: Inputs)
    ensures Tail(b, 0) == Utf8.EncodeString(Hole(",\"catchPolicy\":\"", b.catchPolicy,
              Hole(",\"corpus\":\"", b.corpus, Hole(",\"networkPosture\":\"", b.networkPosture, LastHoles(b)))))
  {
    hide Utf8.EncodeString, Ascii, Quoted, Label, Hole, PlainName, LastHoles;
    var t2 := Hole(",\"networkPosture\":\"", b.networkPosture, LastHoles(b));
    var t1 := Hole(",\"corpus\":\"", b.corpus, t2);
    LastHolesEncode(b);
    FirstLabels();
    HoleEncodes("networkPosture", ",\"networkPosture\":\"", b.networkPosture, LastHoles(b), Tail(b, 3));
    HoleEncodes("corpus", ",\"corpus\":\"", b.corpus, t2, Tail(b, 2));
    HoleEncodes("catchPolicy", ",\"catchPolicy\":\"", b.catchPolicy, t1, Tail(b, 1));
  }

  /** The format string writes this text. */
  lemma PreimageText(b: Inputs)
    ensures Preimage(b) == Utf8.EncodeString(Template(b))
  {
    hide Utf8.EncodeString, Ascii, Quoted, Label, Hole, Opening, Tail;
    var holes := Hole(",\"catchPolicy\":\"", b.catchPolicy,
      Hole(",\"corpus\":\"", b.corpus, Hole(",\"networkPosture\":\"", b.networkPosture, LastHoles(b))));
    FirstHolesEncode(b);
    OpeningEncodes();
    Utf8.EncodeStringAppend("{\"aeeBindingVersion\":\"2\"", holes);
  }

  lemma BraceEncodes()
    ensures Utf8.EncodeString("}") == [CLOSE_BRACE]
  {
    AsciiEncodes("}");
  }

  lemma OpeningEncodes()
    ensures Opening() == Utf8.EncodeString("{\"aeeBindingVersion\":\"2\"")
  {
    hide Utf8.EncodeString, Ascii;
    var text := "{\"aeeBindingVersion\":\"2\"";
    AsciiEncodes(text);
    assert text == "{\"" + "aeeBindingVersion" + "\":\"" + "2" + "\"";
    OpeningBytes("aeeBindingVersion", "2", text);
  }

  lemma OpeningBytes(name: string, version: string, text: string)
    requires forall i :: 0 <= i < |text| ==> text[i] as int < 128
    requires text == "{\"" + name + "\":\"" + version + "\""
    ensures forall i :: 0 <= i < |name| ==> name[i] as int < 128
    ensures forall i :: 0 <= i < |version| ==> version[i] as int < 128
    ensures [OPEN_BRACE, QUOTE] + Ascii(name) + [QUOTE, COLON, QUOTE] + Ascii(version) + [QUOTE] == Ascii(text)
  {
    forall i | 0 <= i < |name| ensures name[i] as int < 128 {
      assert text[2 + i] == name[i];
    }
    forall i | 0 <= i < |version| ensures version[i] as int < 128 {
      assert text[2 + |name| + 3 + i] == version[i];
    }
  }
}
