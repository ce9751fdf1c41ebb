/** The two statements aeetest/build.go builds, for any digests and signature bytes, and
    the proof that both gates accept them. */
module Witnesses {
  import opened Core
  import opened Order
  import opened Sorting
  import opened Scan
  import opened Json
  import opened Codec
  import opened Codes
  import opened Statements
  import opened CorpusManifest
  import opened Gate0
  import opened Payloads
  import opened Rows
  import opened RecordSet
  import opened Commitments
  import opened Seals
  import opened Gate1
  import opened Recompute
  import opened Accepted
  import opened Commit
  import opened Builder
  import Binding
  import Alike
  import Soundness
  import Canonical
  import Merkle
  import Numbers
  import RoundTrip

  const ATTACK: string := "XA-EXAMPLE-1"
  const CLASS: string := "XA"
  const LABEL_CAUGHT: string := "egress_captured"
  const LABEL_CLEAN: string := "no_egress"
  const POSTURE: string := "sinkhole"
  const PAYLOAD_TYPE: string := "application/vnd.example.aee-observation.v1+json"
  const SINKHOLE_LAYER: string := "policy.egress_sinkhole"

  /** The digests and timestamps a build is over. */
  datatype Fixture = Fixture(
    catchPolicy: string, posture: string, substrate: string, subject: string, runEntropy: string, commitment: string,
    armedAt: string, issuedAt: string, signature: Option<bytes>)

  predicate FixtureOk(f: Fixture) {
    && IsLowerHex64(f.catchPolicy) && IsLowerHex64(f.posture) && IsLowerHex64(f.substrate) && IsLowerHex64(f.subject)
    && IsLowerHex64(f.runEntropy) && IsLowerHex64(f.commitment) && Binding.PlainName(f.armedAt)
    && PARSE_TIMESTAMP(f.armedAt).Some? && PARSE_TIMESTAMP(f.issuedAt).Some?
    && PARSE_TIMESTAMP(f.armedAt).value <= PARSE_TIMESTAMP(f.issuedAt).value
  }

  // ----- the parts -----

  function Sha(d: string): DigestSet {
    map["sha256" := d]
  }

  function ManifestValue(): Value {
    Obj([Entry("classes", Obj([Entry(CLASS, Arr([Str(ATTACK)]))]))])
  }

  function PostureValue(f: Fixture): Value {
    Obj([Entry("digest", Obj([Entry("sha256", Str(f.posture))])), Entry("posture", Str(POSTURE))])
  }

  const LABELS: seq<string> := [LABEL_CAUGHT, LABEL_CLEAN]
  const CAUGHT: seq<string> := [LABEL_CAUGHT]

  /** The digest pre-image as the producer writes it. */
  function VocabularyValue(labels: seq<string>, caught: seq<string>): Value {
    Obj([Entry("caught", Arr(Map(caught, StrOf))), Entry("labels", Arr(Map(labels, StrOf)))])
  }

  function VocabularyDigest(): string {
    SHA256Hex(Canon(VocabularyValue(LABELS, CAUGHT)))
  }

  function CorpusDigest(): string {
    SHA256Hex(Canon(ManifestValue()))
  }

  const CLASSES: Classes := map[CLASS := [ATTACK]]

  function BuiltEnvironment(f: Fixture): Environment {
    Environment(
      Some(Sha(f.substrate)),
      Some(Corpus(Sha(CorpusDigest()), Canon(ManifestValue()), Some(CLASSES), NoPayloads)),
      Some(Sha(f.catchPolicy)),
      Some(NetworkPosture(POSTURE, Sha(f.posture))),
      Some(Vocabulary(Sha(VocabularyDigest()), LABELS, CAUGHT, true, true)),
      Some(Sha(f.runEntropy)),
      Some(Canon(PostureValue(f))))
  }

  const COVERAGE: Coverage := Coverage([CLASS], map[], map[])

  function BuiltStatement(f: Fixture, row: Row, records: seq<Record>, result: string): Statement
    requires records != []
  {
    Statement(STATEMENT_TYPE, PREDICATE_TYPE, [Sha(f.subject)],
      Predicate(false, result, true, Some(BuiltEnvironment(f)), Some(COVERAGE), true, [row], true, records, true,
        RootHex(records), true, f.issuedAt, true), [])
  }

  function BuiltBinding(f: Fixture): string {
    Binding.DeriveRunBinding(Binding.Inputs(f.catchPolicy, CorpusDigest(), SHA256Hex(Canon(PostureValue(f))),
      VocabularyDigest(), f.runEntropy, f.subject, f.substrate))
  }

  // ----- GATE 0 accepts them -----

  /** canonicalVocabulary writes the RFC 8785 bytes of {"caught":[...],"labels":[...]}. */
  lemma VocabularyIsCanonical(labels: seq<string>, caught: seq<string>)
    ensures CanonicalVocabulary(labels, caught) == Canon(VocabularyValue(labels, caught))
  {
    hide Utf16Less, JcsString, StringArrayText, Sort, MembersText, CanonMembers, StrictlyAscending, CaughtPrefix, LabelsPrefix;
    var ms := VocabularyValue(labels, caught).members;
    assert StrictlyAscending(Names(ms)) by {
      Binding.LessAt("caught", "labels", 0);
      TwoAscending(Names(ms));
    }
    RoundTrip.CanonSorted(ms);
    SortFixed(ms, NameOf);
    StringArrayIsCanonical(caught);
    StringArrayIsCanonical(labels);
    VocabularyText(ms, StringArrayText(caught), StringArrayText(labels));
  }

  lemma TwoAscending(ss: seq<string>)
    requires |ss| == 2 && Utf16Less(ss[0], ss[1])
    ensures StrictlyAscending(ss)
  {
  }

  lemma VocabularyText(ms: seq<Member>, a: bytes, b: bytes)
    requires |ms| == 2 && ms[0].name == "caught" && ms[1].name == "labels" && Canon(ms[0].value) == a && Canon(ms[1].value) == b
    ensures [OPEN_BRACE] + MembersText(CanonMembers(ms), true) + [CLOSE_BRACE]
            == CaughtPrefix() + a + LabelsPrefix() + b + [CLOSE_BRACE]
  {
    hide JcsString, Canon, MembersText;
    var ts: seq<Entry<bytes>> := CanonMembers(ms);
    assert CanonMembers(ms[1..]) == [Entry("labels", b)] by {
      assert ms[1..][1..] == [];
    }
    assert ts == [Entry("caught", a), Entry("labels", b)];
    TwoTexts(ts);
  }

  lemma TwoTexts(ts: seq<Entry<bytes>>)
    requires |ts| == 2
    ensures MembersText(ts, true)
            == (JcsString(ts[0].name) + [COLON] + ts[0].value) + ([COMMA] + JcsString(ts[1].name) + [COLON] + ts[1].value)
  {
    hide JcsString;
    assert MembersText(ts[1..][1..], false) == [];
    assert MembersText(ts[1..], false) == [COMMA] + JcsString(ts[1].name) + [COLON] + ts[1].value;
  }

  lemma VocabularyBuilt()
    ensures VocabularyOk(Vocabulary(Sha(VocabularyDigest()), LABELS, CAUGHT, true, true))
  {
    hide CanonicalVocabulary, SHA256Hex, Utf16Less, VocabularyValue, Canon;
    VocabularyIsCanonical(LABELS, CAUGHT);
    assert StrictlyAscending(LABELS) by {
      Binding.LessAt(LABEL_CAUGHT, LABEL_CLEAN, 0);
    }
    assert LABELS[0] == LABEL_CAUGHT && LABEL_CAUGHT in LABELS;
    assert Binding.PlainName(LABEL_CAUGHT) && Binding.PlainName(LABEL_CLEAN);
  }

  lemma ManifestBuilt()
    ensures Canonicalize(Canon(ManifestValue())) == Ok(Canon(ManifestValue())) && Canon(ManifestValue()) != []
  {
    hide Canon, Canonicalize, ParseJson, Clean;
    var ids := Arr([Str(ATTACK)]);
    PlainIsClean(ATTACK);
    PlainIsClean(CLASS);
    PlainIsClean("classes");
    assert WellFormed(ids) && Depth(ids) <= 1 by {
      FlatItemsDepth([Str(ATTACK)]);
    }
    OneMemberObject(CLASS, ids, 1);
    var classes := Obj([Entry(CLASS, ids)]);
    OneMemberObject("classes", classes, 2);
    Canonical.CanonParsesBack(ManifestValue());
    ObjectText([Entry("classes", classes)]);
  }

  lemma OneMemberObject(name: string, v: Value, d: nat)
    requires Clean(name) && WellFormed(v) && Depth(v) <= d
    ensures WellFormed(Obj([Entry(name, v)])) && Depth(Obj([Entry(name, v)])) <= d + 1
  {
    hide Clean;
    var ms := [Entry(name, v)];
    assert MembersDepth(ms) == Max(Depth(v), MembersDepth(ms[1..]));
    assert MembersDepth(ms[1..]) == 0;
  }

  lemma ObjectText(ms: seq<Member>)
    ensures Canon(Obj(ms)) != [] && Canon(Obj(ms))[0] == OPEN_BRACE
  {
    hide MembersText, CanonMembers, Sort;
  }

  lemma PostureBuilt(f: Fixture)
    requires FixtureOk(f)
    ensures PosturePreimage(BuiltEnvironment(f)) == SHA256Hex(Canon(PostureValue(f)))
  {
    hide Canon, Canonicalize, ParseJson, SHA256Hex, FixtureOk, WellFormed, Depth, PostureValue, BuiltEnvironment, SkipSpace;
    PostureWellFormed(f);
    BuiltMembers(f);
    var v := PostureValue(f);
    Canonical.CanonParsesBack(v);
    ObjectText(v.members);
  }

  lemma PostureWellFormed(f: Fixture)
    requires FixtureOk(f)
    ensures WellFormed(PostureValue(f)) && Depth(PostureValue(f)) <= 2 && PostureValue(f).Obj?
  {
    hide Clean, IsLowerHex64;
    HexIsClean(f.posture);
    PlainIsClean("sha256");
    PlainIsClean("digest");
    PlainIsClean("posture");
    PlainIsClean(POSTURE);
    OneMemberObject("sha256", Str(f.posture), 0);
    TwoMembers("digest", Obj([Entry("sha256", Str(f.posture))]), "posture", Str(POSTURE));
  }

  lemma TwoMembers(a: string, v: Value, b: string, w: Value)
    requires Clean(a) && Clean(b) && a != b && WellFormed(v) && WellFormed(w) && Depth(v) <= 1 && Depth(w) <= 1
    ensures WellFormed(Obj([Entry(a, v), Entry(b, w)])) && Depth(Obj([Entry(a, v), Entry(b, w)])) <= 2
  {
    hide Clean;
    var ms := [Entry(a, v), Entry(b, w)];
    FlatMembersDepth(ms);
    assert Names(ms)[0] == a && Names(ms)[1] == b;
  }

  lemma ManifestClasses()
    ensures EachOnce(CLASSES) && !NoAttacks(CLASSES) && Declared(CLASSES, ATTACK)
    ensures forall id: string :: Declared(CLASSES, id) <==> id == ATTACK
  {
    assert CLASSES[CLASS] == [ATTACK];
    assert ATTACK in CLASSES[CLASS];
  }

  lemma CorpusBuilt()
    ensures CorpusOk(Corpus(Sha(CorpusDigest()), Canon(ManifestValue()), Some(CLASSES), NoPayloads))
  {
    hide Canon, Canonicalize, SHA256Hex, EachOnce, NoAttacks, ManifestValue;
    ManifestBuilt();
    ManifestClasses();
  }

  lemma EnvironmentBuilt(f: Fixture)
    ensures EnvironmentOk(BuiltEnvironment(f))
  {
    hide Canon, CorpusDigest, ManifestValue, VocabularyOk, CorpusOk, VocabularyDigest, PostureValue;
    VocabularyBuilt();
    CorpusBuilt();
  }

  /** A row of the only attack. */
  predicate BuiltRow(row: Row) {
    && row.attackId == ATTACK && IsSubstrate(row) && row.actualLayer.Some?
    && (row.containmentObserved == LABEL_CAUGHT
        || (row.containmentObserved == LABEL_CLEAN && row.actualLayer.value == LAYER_NONE))
  }

  lemma LabelsDiffer()
    ensures LABEL_CAUGHT != LABEL_CLEAN
    ensures LABEL_CAUGHT in CAUGHT && LABEL_CLEAN !in CAUGHT && LABEL_CLEAN in LABELS && LABEL_CAUGHT in LABELS
  {
    assert LABEL_CAUGHT[0] == 'e' && LABEL_CLEAN[0] == 'n';
    assert LABELS[0] == LABEL_CAUGHT && LABELS[1] == LABEL_CLEAN && CAUGHT[0] == LABEL_CAUGHT;
  }

  lemma IntegrityBuilt(s: Statement)
    requires s.predicate_.coverage == Some(COVERAGE) && |s.predicate_.rows| == 1 && s.predicate_.rows[0].attackId == ATTACK
    ensures IntegrityOk(s.predicate_, COVERAGE, CLASSES)
  {
    var p := s.predicate_;
    ManifestClasses();
    forall c: string ensures Accounted(COVERAGE, c) == if c in CLASSES then 1 else 0 {
      assert COVERAGE.assessedClasses == [CLASS];
    }
    forall id: string ensures HasRow(p.rows, id) <==> Expected(COVERAGE, CLASSES, id) {
      assert COVERAGE.assessedClasses[0] == CLASS && CLASSES[CLASS] == [ATTACK];
      assert HasRow(p.rows, id) <==> id == ATTACK;
      assert Expected(COVERAGE, CLASSES, ATTACK);
      assert Expected(COVERAGE, CLASSES, id) ==> Declared(CLASSES, id);
    }
  }

  lemma CorpusDigestHex()
    ensures IsLowerHex64(CorpusDigest())
  {
    hide Canon, IsLowerHex64;
  }

  lemma InputsBuilt(f: Fixture, s: Statement)
    requires FixtureOk(f) && s.predicate_.env == Some(BuiltEnvironment(f)) && s.subject == [Sha(f.subject)]
    ensures BindingInputsOk(s)
  {
    hide Canon, IsLowerHex64, VocabularyDigest, ManifestValue, PostureValue, CorpusDigest;
    assert IsLowerHex64(CorpusDigest()) by { CorpusDigestHex(); }
    var e := s.predicate_.env.value;
    assert RefSha256(e.runEntropy) == f.runEntropy && RefSha256(e.catchPolicy) == f.catchPolicy
           && RefSha256(e.substrate) == f.substrate && CorpusSha256(e.corpus) == CorpusDigest()
           && PostureSha256(e.networkPosture) == f.posture;
  }

  lemma Gate0Built(f: Fixture, row: Row, records: seq<Record>, result: string)
    requires FixtureOk(f) && BuiltRow(row) && records != [] && IsResultToken(result)
    ensures Gate0Ok(BuiltStatement(f, row, records, result))
  {
    hide EnvironmentOk, RootHex, BuiltEnvironment, IntegrityOk, BindingInputsOk, IsResultToken, FixtureOk;
    var s := BuiltStatement(f, row, records, result);
    EnvironmentBuilt(f);
    IntegrityBuilt(s);
    InputsBuilt(f, s);
    assert f.issuedAt == s.predicate_.issuedAt && PARSE_TIMESTAMP(f.issuedAt).Some? by { FixtureTimes(f); }
    assert EnvelopeOk(s);
    assert s.predicate_.env.value == BuiltEnvironment(f);
    BuiltMembers(f);
    LabelsDiffer();
    assert !CleanRowWithLayer(s.predicate_.env.value.vocabulary.value, row);
  }

  lemma FixtureTimes(f: Fixture)
    requires FixtureOk(f)
    ensures PARSE_TIMESTAMP(f.issuedAt).Some?
  {
    hide IsLowerHex64;
  }

  lemma BuiltMembers(f: Fixture)
    ensures BuiltEnvironment(f).vocabulary.Some? && BuiltEnvironment(f).corpus.Some?
    ensures BuiltEnvironment(f).vocabulary.value.labels == LABELS && BuiltEnvironment(f).vocabulary.value.caught == CAUGHT
    ensures BuiltEnvironment(f).corpus.value.classes == Some(CLASSES)
    ensures BuiltEnvironment(f).corpus.value.payloads == NoPayloads
    ensures BuiltEnvironment(f).postureRaw == Some(Canon(PostureValue(f)))
  {
  }

  // ----- the records -----

  function ArmingMembers(f: Fixture, binding: string): seq<Member> {
    [ Entry(ASSESSED_ATTACKS, Arr([Str(ATTACK)])),
      Entry(KIND, Str(KIND_ARMING)),
      Entry(METHOD, Str(METHOD_INTERCEPTED)),
      Entry(POSTURE_DIGEST, Str(f.posture)),
      Entry(RUN_BINDING, Str(binding)),
      Entry(ARMED_AT, Str(f.armedAt)),
      Entry("producerNote", Str("example arming record"))]
  }

  function SealedMembers(f: Fixture, binding: string, observedSet: string): seq<Member> {
    [ Entry(DROP_COUNT, Num(Numbers.PlainLiteral(0))),
      Entry(KIND, Str(KIND_SEALED)),
      Entry(METHOD, Str(METHOD_INTERCEPTED)),
      Entry(OBSERVED_ATTACKS, Arr([])),
      Entry(OBSERVED_SET, Str(observedSet)),
      Entry(POSTURE_DIGEST, Str(f.posture)),
      Entry(RUN_BINDING, Str(binding)),
      Entry(STILL_ARMED, Bool(true))]
  }

  function InterceptionMembers(f: Fixture, binding: string): seq<Member> {
    [ Entry(KIND, Str(KIND_INTERCEPTION)),
      Entry(METHOD, Str(METHOD_INTERCEPTED)),
      Entry(PAYLOAD_COMMITMENT, Arr([Str(f.commitment)])),
      Entry(RUN_BINDING, Str(binding)),
      Entry("producerNote", Str("example interception commitment"))]
  }

  /** signRecord: the canonical payload under one signature. */
  function SignRecord(f: Fixture, ms: seq<Member>): Record {
    Record(Some(Canon(Obj(ms))), PAYLOAD_TYPE, [f.signature])
  }

  const ARMING_NAMES: seq<string> := [ASSESSED_ATTACKS, KIND, METHOD, POSTURE_DIGEST, RUN_BINDING, ARMED_AT, "producerNote"]

  lemma ArmingPlain()
    ensures forall i :: 0 <= i < |ARMING_NAMES| ==> Clean(ARMING_NAMES[i]) && BmpOnly(ARMING_NAMES[i])
  {
    hide Clean, BmpOnly, Binding.PlainName;
    forall i | 0 <= i < |ARMING_NAMES| ensures Clean(ARMING_NAMES[i]) && BmpOnly(ARMING_NAMES[i]) {
      ArmingNamesPlain();
      PlainIsClean(ARMING_NAMES[i]);
    }
  }

  lemma ArmingNamesPlain()
    ensures forall i :: 0 <= i < |ARMING_NAMES| ==> Binding.PlainName(ARMING_NAMES[i])
  {
    hide Binding.PlainName;
    MemberNamesPlain();
    assert Binding.PlainName(ASSESSED_ATTACKS) && Binding.PlainName(ARMED_AT) by { ArmedNamesPlain(); }
  }

  lemma ArmedNamesPlain()
    ensures Binding.PlainName(ASSESSED_ATTACKS) && Binding.PlainName(ARMED_AT)
  {
  }

  lemma ArmingOrder()
    ensures StrictlyAscending(ARMING_NAMES)
    ensures forall i :: 0 <= i < |ARMING_NAMES| ==> Clean(ARMING_NAMES[i]) && BmpOnly(ARMING_NAMES[i])
  {
    hide Utf16Less, Clean, BmpOnly;
    var ns := ARMING_NAMES;
    ArmingPlain();
    forall i | 1 <= i < |ns| ensures Utf16Less(ns[i - 1], ns[i]) {
      if i == 1 { Binding.LessAt(ASSESSED_ATTACKS, KIND, 3); }
      else if i == 2 { Binding.LessAt(KIND, METHOD, 3); }
      else if i == 3 { Binding.LessAt(METHOD, POSTURE_DIGEST, 3); }
      else if i == 4 { Binding.LessAt(POSTURE_DIGEST, RUN_BINDING, 3); }
      else if i == 5 { Binding.LessAt(RUN_BINDING, ARMED_AT, 1); }
      else { Binding.LessAt(ARMED_AT, "producerNote", 0); }
    }
    AdjacentIsGlobal(ns);
  }

  lemma ArmingValues(f: Fixture, binding: string)
    requires IsLowerHex64(f.posture) && Binding.PlainName(f.armedAt) && IsLowerHex64(binding)
    ensures forall i :: 0 <= i < 7 ==> Flat(ArmingMembers(f, binding)[i].value)
  {
    hide IsLowerHex64, Clean;
    HexIsClean(f.posture);
    HexIsClean(binding);
    PlainIsClean(f.armedAt);
    PlainIsClean(ATTACK);
    PlainIsClean(KIND_ARMING);
    PlainIsClean(METHOD_INTERCEPTED);
    PlainIsClean("example arming record");
  }

  lemma ArmingFlat(f: Fixture, binding: string)
    requires FixtureOk(f) && IsLowerHex64(binding)
    ensures FlatMembers(ArmingMembers(f, binding))
  {
    hide Utf16Less, IsLowerHex64, Clean, BmpOnly, Flat;
    ArmingValues(f, binding);
    var ms := ArmingMembers(f, binding);
    assert Names(ms) == ARMING_NAMES;
    ArmingOrder();
    forall i | 0 <= i < |ms| ensures Clean(ms[i].name) && BmpOnly(ms[i].name) {
      assert Names(ms)[i] == ms[i].name;
    }
  }

  const SEALED_NAMES: seq<string> := [DROP_COUNT, KIND, METHOD, OBSERVED_ATTACKS, OBSERVED_SET, POSTURE_DIGEST, RUN_BINDING, STILL_ARMED]

  lemma SealedPlain()
    ensures forall i :: 0 <= i < |SEALED_NAMES| ==> Clean(SEALED_NAMES[i]) && BmpOnly(SEALED_NAMES[i])
  {
    hide Clean, BmpOnly, Binding.PlainName;
    forall i | 0 <= i < |SEALED_NAMES| ensures Clean(SEALED_NAMES[i]) && BmpOnly(SEALED_NAMES[i]) {
      SealedNamesPlain();
      PlainIsClean(SEALED_NAMES[i]);
    }
  }

  lemma SealedNamesPlain()
    ensures forall i :: 0 <= i < |SEALED_NAMES| ==> Binding.PlainName(SEALED_NAMES[i])
  {
    hide Binding.PlainName;
    MemberNamesPlain();
    SealNamesPlain();
  }

  /** Names that more than one kind of record carries. */
  lemma MemberNamesPlain()
    ensures Binding.PlainName(KIND) && Binding.PlainName(METHOD) && Binding.PlainName(RUN_BINDING)
    ensures Binding.PlainName(POSTURE_DIGEST) && Binding.PlainName("producerNote")
  {
  }

  lemma SealNamesPlain()
    ensures Binding.PlainName(DROP_COUNT) && Binding.PlainName(OBSERVED_ATTACKS)
    ensures Binding.PlainName(OBSERVED_SET) && Binding.PlainName(STILL_ARMED)
  {
  }

  lemma SealedOrder()
    ensures StrictlyAscending(SEALED_NAMES)
    ensures forall i :: 0 <= i < |SEALED_NAMES| ==> Clean(SEALED_NAMES[i]) && BmpOnly(SEALED_NAMES[i])
  {
    hide Utf16Less, Clean, BmpOnly;
    var ns := SEALED_NAMES;
    SealedPlain();
    forall i | 1 <= i < |ns| ensures Utf16Less(ns[i - 1], ns[i]) {
      if i == 1 { Binding.LessAt(DROP_COUNT, KIND, 3); }
      else if i == 2 { Binding.LessAt(KIND, METHOD, 3); }
      else if i == 3 { Binding.LessAt(METHOD, OBSERVED_ATTACKS, 3); }
      else if i == 4 { Binding.LessAt(OBSERVED_ATTACKS, OBSERVED_SET, 11); }
      else if i == 5 { Binding.LessAt(OBSERVED_SET, POSTURE_DIGEST, 3); }
      else if i == 6 { Binding.LessAt(POSTURE_DIGEST, RUN_BINDING, 3); }
      else { Binding.LessAt(RUN_BINDING, STILL_ARMED, 3); }
    }
    AdjacentIsGlobal(ns);
  }

  lemma SealedFlat(f: Fixture, binding: string, observedSet: string)
    requires FixtureOk(f) && IsLowerHex64(binding) && IsLowerHex64(observedSet)
    ensures FlatMembers(SealedMembers(f, binding, observedSet))
  {
    hide Utf16Less, IsLowerHex64, Clean, BmpOnly, Numbers.PlainLiteral;
    var ms := SealedMembers(f, binding, observedSet);
    LowerHexClean(f.posture);
    LowerHexClean(binding);
    LowerHexClean(observedSet);
    PlainIsClean(KIND_SEALED);
    PlainIsClean(METHOD_INTERCEPTED);
    assert Names(ms) == SEALED_NAMES;
    SealedOrder();
  }

  const INTERCEPTION_NAMES: seq<string> := [KIND, METHOD, PAYLOAD_COMMITMENT, RUN_BINDING, "producerNote"]

  lemma InterceptionPlain()
    ensures forall i :: 0 <= i < |INTERCEPTION_NAMES| ==> Clean(INTERCEPTION_NAMES[i]) && BmpOnly(INTERCEPTION_NAMES[i])
  {
    hide Clean, BmpOnly, Binding.PlainName;
    var ns := INTERCEPTION_NAMES;
    MemberNamesPlain();
    CommitmentNamePlain();
    forall i | 0 <= i < |ns| ensures Clean(ns[i]) && BmpOnly(ns[i]) {
      PlainIsClean(ns[i]);
    }
  }

  lemma CommitmentNamePlain()
    ensures Binding.PlainName(PAYLOAD_COMMITMENT)
  {
  }

  lemma InterceptionOrder()
    ensures StrictlyAscending(INTERCEPTION_NAMES)
    ensures forall i :: 0 <= i < |INTERCEPTION_NAMES| ==> Clean(INTERCEPTION_NAMES[i]) && BmpOnly(INTERCEPTION_NAMES[i])
  {
    hide Utf16Less, Clean, BmpOnly;
    var ns := INTERCEPTION_NAMES;
    InterceptionPlain();
    forall i | 1 <= i < |ns| ensures Utf16Less(ns[i - 1], ns[i]) {
      if i == 1 { Binding.LessAt(KIND, METHOD, 3); }
      else if i == 2 { Binding.LessAt(METHOD, PAYLOAD_COMMITMENT, 3); }
      else if i == 3 { Binding.LessAt(PAYLOAD_COMMITMENT, RUN_BINDING, 3); }
      else { Binding.LessAt(RUN_BINDING, "producerNote", 0); }
    }
    AdjacentIsGlobal(ns);
  }

  lemma InterceptionValues(f: Fixture, binding: string)
    requires IsLowerHex64(f.commitment) && IsLowerHex64(binding)
    ensures forall i :: 0 <= i < 5 ==> Flat(InterceptionMembers(f, binding)[i].value)
  {
    hide IsLowerHex64, Clean;
    HexIsClean(f.commitment);
    HexIsClean(binding);
    PlainIsClean(KIND_INTERCEPTION);
    PlainIsClean(METHOD_INTERCEPTED);
    PlainIsClean("example interception commitment");
  }

  lemma InterceptionFlat(f: Fixture, binding: string)
    requires FixtureOk(f) && IsLowerHex64(binding)
    ensures FlatMembers(InterceptionMembers(f, binding))
  {
    hide Utf16Less, IsLowerHex64, Clean, BmpOnly, Flat;
    InterceptionValues(f, binding);
    var ms := InterceptionMembers(f, binding);
    assert Names(ms) == INTERCEPTION_NAMES;
    InterceptionOrder();
    forall i | 0 <= i < |ms| ensures Clean(ms[i].name) && BmpOnly(ms[i].name) {
      assert Names(ms)[i] == ms[i].name;
    }
  }

  /** What GATE 1 reads in a built record. */
  lemma SignedRecord(f: Fixture, ms: seq<Member>, kind: string, binding: string)
    requires FlatMembers(ms)
    requires Entry(KIND, Str(kind)) in ms && Entry(METHOD, Str(METHOD_INTERCEPTED)) in ms && Entry(RUN_BINDING, Str(binding)) in ms
    ensures PayloadObject(SignRecord(f, ms)) == Some(Obj(ms)) && Bound(SignRecord(f, ms), binding)
    ensures TextMember(Obj(ms), KIND) == kind && TextMember(Obj(ms), METHOD) == METHOD_INTERCEPTED
  {
    hide Canon, ParseJson, Canonicalize, FlatMembers, BmpNames, Distinct, HasName, Lookup;
    BuiltPayload(ms);
    UniqueLookup(ms, Entry(KIND, Str(kind)));
    UniqueLookup(ms, Entry(METHOD, Str(METHOD_INTERCEPTED)));
    UniqueLookup(ms, Entry(RUN_BINDING, Str(binding)));
    JsonType();
    BoundMeans(SignRecord(f, ms), binding);
  }

  lemma JsonType()
    ensures JsonMediaType(PAYLOAD_TYPE)
  {
    assert |PAYLOAD_TYPE| == 47;
    assert PAYLOAD_TYPE[42..] == "+json";
  }

  lemma KindsDiffer()
    ensures KIND_ARMING != KIND_SEALED && KIND_ARMING != KIND_INTERCEPTION && KIND_ARMING != KIND_EXAMINATION
    ensures KIND_SEALED != KIND_INTERCEPTION && KIND_SEALED != KIND_EXAMINATION
  {
    assert KIND_ARMING[0] == 'a' && KIND_SEALED[0] == 's' && KIND_INTERCEPTION[0] == 'i' && KIND_EXAMINATION[0] == 'e';
  }

  // ----- kind constraints -----

  lemma ArmingCovers(f: Fixture, binding: string, postures: seq<string>, issuedAt: int, declared: set<string>)
    requires FixtureOk(f) && IsLowerHex64(binding) && ATTACK in declared && PARSE_TIMESTAMP(f.armedAt).value <= issuedAt
    ensures KindOk(Obj(ArmingMembers(f, binding)), KIND_ARMING, METHOD_INTERCEPTED, f.posture, postures, issuedAt, declared)
    ensures ObjStrings(Obj(ArmingMembers(f, binding)), ASSESSED_ATTACKS) == Some([ATTACK])
    ensures ObjString(Obj(ArmingMembers(f, binding)), POSTURE_DIGEST) == Some(f.posture)
  {
    hide StrictlyAscending, IsLowerHex64, Distinct, HasName, Lookup, MemberOf, Flat, Clean, BmpOnly;
    var ms := ArmingMembers(f, binding);
    ArmingFlat(f, binding);
    AscendingDistinct(Names(ms));
    assert Distinct(Names(ms)) by { DistinctNames(ms); }
    MemberAt(ms, 0);
    MemberAt(ms, 3);
    MemberAt(ms, 5);
    ArmingAbsent(f, binding);
    KindsDiffer();
    OneString(ATTACK);
    assert StrictlyAscending([ATTACK]) by { OneAscending(ATTACK); }
  }

  lemma DistinctNames(ms: seq<Member>)
    requires forall i, j :: 0 <= i < j < |Names(ms)| ==> Names(ms)[i] != Names(ms)[j]
    ensures Distinct(Names(ms))
  {
  }

  lemma OneString(s: string)
    ensures StringsOf([Str(s)]) == Some([s])
  {
    assert StringsOf([Str(s)]).value == [s];
  }

  lemma OneAscending(s: string)
    ensures StrictlyAscending([s])
  {
  }

  /** The optional members an arming payload may carry are not there. */
  lemma ArmingAbsent(f: Fixture, binding: string)
    ensures MemberOf(Obj(ArmingMembers(f, binding)), BINDING_VERSION_MEMBER).None?
    ensures MemberOf(Obj(ArmingMembers(f, binding)), RUN_SEQ).None?
    ensures MemberOf(Obj(ArmingMembers(f, binding)), PREV_RUN_BINDING).None?
    ensures MemberOf(Obj(ArmingMembers(f, binding)), CHAIN_SCOPE).None?
  {
    hide MemberOf, HasName;
    var ms := ArmingMembers(f, binding);
    forall i | 0 <= i < |ms|
      ensures ms[i].name != BINDING_VERSION_MEMBER && ms[i].name != RUN_SEQ
              && ms[i].name != PREV_RUN_BINDING && ms[i].name != CHAIN_SCOPE
    {
      assert BINDING_VERSION_MEMBER[3] == 'B' && RUN_SEQ[3] == 'R' && RUN_SEQ[6] == 'S' && PREV_RUN_BINDING[4] == 'r'
             && CHAIN_SCOPE[3] == 'C';
      assert POSTURE_DIGEST[4] == 'o' && RUN_BINDING[6] == 'B';
      assert ASSESSED_ATTACKS[3] == 'A' && KIND[3] == 'K' && METHOD[3] == 'M' && ARMED_AT[0] == 'a' && ARMED_AT[1] == 'r';
      assert "producerNote"[0] == 'p';
    }
    NotAMember(ms, BINDING_VERSION_MEMBER);
    NotAMember(ms, RUN_SEQ);
    NotAMember(ms, PREV_RUN_BINDING);
    NotAMember(ms, CHAIN_SCOPE);
  }

  lemma SealedCovers(f: Fixture, binding: string, observedSet: string, postures: seq<string>, issuedAt: int, declared: set<string>)
    requires FixtureOk(f) && IsLowerHex64(binding) && IsLowerHex64(observedSet)
    requires forall k :: 0 <= k < |postures| ==> postures[k] == f.posture
    ensures KindOk(Obj(SealedMembers(f, binding, observedSet)), KIND_SEALED, METHOD_INTERCEPTED, f.posture, postures, issuedAt, declared)
    ensures ObjString(Obj(SealedMembers(f, binding, observedSet)), OBSERVED_SET) == Some(observedSet)
    ensures ObjStrings(Obj(SealedMembers(f, binding, observedSet)), OBSERVED_ATTACKS) == Some([])
  {
    hide StrictlyAscending, IsLowerHex64, Distinct, HasName, Lookup, MemberOf, Flat, Clean, BmpOnly, Numbers.PlainLiteral, FixtureOk;
    var ms := SealedMembers(f, binding, observedSet);
    SealedFlat(f, binding, observedSet);
    AscendingDistinct(Names(ms));
    assert Distinct(Names(ms)) by { DistinctNames(ms); }
    MemberAt(ms, 0);
    MemberAt(ms, 3);
    MemberAt(ms, 4);
    MemberAt(ms, 5);
    MemberAt(ms, 7);
    ZeroDrops();
    KindsDiffer();
    assert StrictlyAscending([]) by { NoneAscending(); }
  }

  lemma NoneAscending()
    ensures StrictlyAscending([])
  {
  }

  lemma ZeroDrops()
    ensures Numbers.PlainInt(Numbers.PlainLiteral(0)) == Some(0)
  {
    assert DecText(0) == ['0' as int];
    assert DigitsValue(DecText(0)) == 0;
  }

  lemma InterceptionCovers(f: Fixture, binding: string, postures: seq<string>, issuedAt: int, declared: set<string>)
    requires FixtureOk(f) && IsLowerHex64(binding)
    ensures KindOk(Obj(InterceptionMembers(f, binding)), KIND_INTERCEPTION, METHOD_INTERCEPTED, f.posture, postures, issuedAt, declared)
  {
    hide StrictlyAscending, IsLowerHex64, Distinct, HasName, Lookup, MemberOf, Flat, Clean, BmpOnly;
    var ms := InterceptionMembers(f, binding);
    InterceptionFlat(f, binding);
    AscendingDistinct(Names(ms));
    assert Distinct(Names(ms)) by { DistinctNames(ms); }
    MemberAt(ms, 2);
    OneString(f.commitment);
    assert StrictlyAscending([f.commitment]) by { OneAscending(f.commitment); }
  }

  // ----- what both shapes share -----

  lemma BindingBuilt(f: Fixture, row: Row, records: seq<Record>, result: string)
    requires FixtureOk(f) && records != []
    ensures StatementBinding(BuiltStatement(f, row, records, result)) == BuiltBinding(f)
  {
    hide Canon, ManifestValue, PostureValue, VocabularyDigest, CorpusDigest, FixtureOk, RootHex, Binding.DeriveRunBinding, PosturePreimage;
    PostureBuilt(f);
  }

  /** What the kinds and constraints of two built records are. */
  predicate Records(p: Predicate, f: Fixture, a: seq<Member>, kind: string, b: seq<Member>) {
    && |p.records| == 2 && p.records[0] == SignRecord(f, a) && p.records[1] == SignRecord(f, b)
    && RecordPayload(p, 0) == Obj(a) && RecordKind(p, 0) == kind && RecordMethod(p, 0) == METHOD_INTERCEPTED
    && RecordPayload(p, 1) == Obj(b) && RecordKind(p, 1) == KIND_SEALED && RecordMethod(p, 1) == METHOD_INTERCEPTED
    && Bound(p.records[0], BuiltBinding(f)) && Bound(p.records[1], BuiltBinding(f))
  }

  lemma RecordsBuilt(p: Predicate, f: Fixture, a: seq<Member>, kind: string, b: seq<Member>)
    requires |p.records| == 2 && p.records[0] == SignRecord(f, a) && p.records[1] == SignRecord(f, b)
    requires FlatMembers(a) && FlatMembers(b)
    requires Entry(KIND, Str(kind)) in a && Entry(METHOD, Str(METHOD_INTERCEPTED)) in a && Entry(RUN_BINDING, Str(BuiltBinding(f))) in a
    requires Entry(KIND, Str(KIND_SEALED)) in b && Entry(METHOD, Str(METHOD_INTERCEPTED)) in b
             && Entry(RUN_BINDING, Str(BuiltBinding(f))) in b
    ensures Records(p, f, a, kind, b)
  {
    hide FlatMembers, TextMember, PayloadObject, Bound, SignRecord, BuiltBinding;
    SignedRecord(f, a, kind, BuiltBinding(f));
    SignedRecord(f, b, KIND_SEALED, BuiltBinding(f));
  }

  /** The two leaves are one only under a collision. */
  lemma LeavesApart(p: Predicate, f: Fixture, a: seq<Member>, kind: string, b: seq<Member>)
    requires Records(p, f, a, kind, b) && kind != KIND_SEALED
    requires !Collides(Merkle.LeafInput(StateOf(p.records[0]).pae), Merkle.LeafInput(StateOf(p.records[1]).pae))
    ensures !SomeDuplicate(p.records)
  {
    hide StateOf, SignRecord, RecordKind, RecordMethod, RecordPayload, Bound, Leaf, BuiltBinding, Merkle.LeafInput, LeafHex;
    assert p.records[0].payload.Some? && p.records[1].payload.Some? by { SignedDecodes(f, a, b); }
    if Leaf(p.records[0]) == Leaf(p.records[1]) {
      LeafHexSame(p.records[0], p.records[1]);
      LeafCommits(p.records[0], p.records[1]);
      SamePayloadSameKind(p);
    }
  }

  lemma SignedDecodes(f: Fixture, a: seq<Member>, b: seq<Member>)
    ensures SignRecord(f, a).payload.Some? && SignRecord(f, b).payload.Some?
  {
  }

  lemma SamePayloadSameKind(p: Predicate)
    requires |p.records| == 2 && Alike.SameEnvelope(p.records[0], p.records[1])
    ensures RecordKind(p, 0) == RecordKind(p, 1)
  {
    hide ParseJson, TextMember;
  }

  lemma LeafHexSame(a: Record, b: Record)
    requires Leaf(a) == Leaf(b)
    ensures LeafHex(a) == LeafHex(b)
  {
  }

  lemma BuiltReadings(f: Fixture, row: Row, records: seq<Record>, result: string)
    requires records != []
    ensures
      var p := BuiltStatement(f, row, records, result).predicate_;
      Readable(p) && PinnedPosture(p) == f.posture && ATTACK in DeclaredIds(p) && Voc(p).labels == LABELS && Voc(p).caught == CAUGHT
  {
    hide Canon, ManifestValue, PostureValue, VocabularyDigest, CorpusDigest, RootHex;
    assert CLASSES[CLASS] == [ATTACK] && ATTACK in CLASSES[CLASS];
  }

  /** What the gates read in a built predicate besides rows, result and records. */
  predicate BuiltReads(p: Predicate, f: Fixture) {
    && Readable(p) && PinnedPosture(p) == f.posture && ATTACK in DeclaredIds(p) && Voc(p).labels == LABELS && Voc(p).caught == CAUGHT
    && p.issuedAt == f.issuedAt && |p.records| == 2
    && p.recordsPresent && p.batchRootPresent && p.batchRoot == RootHex(p.records)
    && p.coverage == Some(COVERAGE)
    && p.env.Some? && p.env.value.corpus.Some? && ClassesOf(p.env.value.corpus.value) == CLASSES
  }

  /** Posture claims all equal to the pinned one. */
  predicate Pinned(postures: seq<string>, f: Fixture) {
    forall k :: 0 <= k < |postures| ==> postures[k] == f.posture
  }

  lemma SealCovers(p: Predicate, f: Fixture, a: seq<Member>, kind: string, observedSet: string, postures: seq<string>, issuedAt: int)
    requires FixtureOk(f) && IsLowerHex64(observedSet) && PinnedPosture(p) == f.posture && Pinned(postures, f)
    requires Records(p, f, a, kind, SealedMembers(f, BuiltBinding(f), observedSet))
    ensures Covers(p, 1, postures, issuedAt)
  {
    hide KindOk, SealedMembers, BuiltBinding, Bound, RecordPayload, RecordKind, RecordMethod, FixtureOk, IsLowerHex64, SignRecord;
    assert IsLowerHex64(BuiltBinding(f)) by { BindingHex(f); }
    SealedCovers(f, BuiltBinding(f), observedSet, postures, issuedAt, DeclaredIds(p));
  }

  lemma BindingHex(f: Fixture)
    ensures IsLowerHex64(BuiltBinding(f))
  {
    hide IsLowerHex64, Canon, CorpusDigest, VocabularyDigest;
  }

  lemma FirstCovers(p: Predicate, f: Fixture, kind: string, b: seq<Member>, postures: seq<string>, issuedAt: int)
    requires FixtureOk(f) && PinnedPosture(p) == f.posture && ATTACK in DeclaredIds(p) && Pinned(postures, f)
    requires PARSE_TIMESTAMP(f.armedAt).value <= issuedAt
    requires Records(p, f, if kind == KIND_ARMING then ArmingMembers(f, BuiltBinding(f)) else InterceptionMembers(f, BuiltBinding(f)), kind, b)
    requires kind == KIND_ARMING || kind == KIND_INTERCEPTION
    ensures Covers(p, 0, postures, issuedAt)
  {
    hide KindOk, ArmingMembers, InterceptionMembers, BuiltBinding, Bound, RecordPayload, RecordKind, RecordMethod, IsLowerHex64, SignRecord,
      DeclaredIds, PinnedPosture;
    assert IsLowerHex64(BuiltBinding(f)) by { BindingHex(f); }
    if kind == KIND_ARMING {
      ArmingCovers(f, BuiltBinding(f), postures, issuedAt, DeclaredIds(p));
    } else {
      InterceptionCovers(f, BuiltBinding(f), postures, issuedAt, DeclaredIds(p));
    }
  }

  lemma RecordSetBuilt(s: Statement, f: Fixture, a: seq<Member>, kind: string, b: seq<Member>)
    requires Records(s.predicate_, f, a, kind, b) && kind != KIND_SEALED
    requires s.predicate_.recordsPresent && s.predicate_.batchRootPresent
             && s.predicate_.batchRoot == RootHex(s.predicate_.records)
    requires !Collides(Merkle.LeafInput(StateOf(s.predicate_.records[0]).pae), Merkle.LeafInput(StateOf(s.predicate_.records[1]).pae))
    ensures RecordSetOk(s.predicate_)
  {
    hide SomeDuplicate, RootHex, StateOf, RecordKind, RecordMethod, RecordPayload, Bound, BuiltBinding, SignRecord, Merkle.LeafInput,
      Collides;
    LeavesApart(s.predicate_, f, a, kind, b);
    SignedWhole(f, a);
    SignedWhole(f, b);
  }

  lemma SignedWhole(f: Fixture, ms: seq<Member>)
    ensures SignRecord(f, ms).payload.Some? && SignRecord(f, ms).signatures != []
  {
    hide Canon;
  }

  // ----- the clean statement -----

  const CLEAN_ROW: Row := Row(ATTACK, LABEL_CLEAN, Some(BASIS_SUBSTRATE), Some(METHOD_INTERCEPTED), Some(ATTRIBUTION_PAIRED),
    Some(LAYER_NONE), true, false, [0, 1])

  function CleanRecords(f: Fixture): seq<Record> {
    [SignRecord(f, ArmingMembers(f, BuiltBinding(f))), SignRecord(f, SealedMembers(f, BuiltBinding(f), SealDigest([])))]
  }

  function CleanStatement(f: Fixture): Statement {
    BuiltStatement(f, CLEAN_ROW, CleanRecords(f), RESULT_PASS)
  }

  lemma SealDigestHex(observed: seq<Record>)
    ensures IsLowerHex64(SealDigest(observed))
  {
    hide IsLowerHex64, StringArrayText, SortBy, BuilderLeaves;
  }

  lemma CleanShape(f: Fixture)
    requires FixtureOk(f)
    ensures Records(CleanStatement(f).predicate_, f, ArmingMembers(f, BuiltBinding(f)), KIND_ARMING,
                    SealedMembers(f, BuiltBinding(f), SealDigest([])))
  {
    hide FlatMembers, BuiltBinding, SealDigest, SignRecord, BuiltEnvironment, RootHex, FixtureOk, IsLowerHex64, Records;
    var b := BuiltBinding(f);
    BindingHex(f);
    SealDigestHex([]);
    ArmingFlat(f, b);
    SealedFlat(f, b, SealDigest([]));
    var am, sm := ArmingMembers(f, b), SealedMembers(f, b, SealDigest([]));
    assert am[1] in am && am[2] in am && am[4] in am && sm[1] in sm && sm[2] in sm && sm[6] in sm;
    RecordsBuilt(CleanStatement(f).predicate_, f, am, KIND_ARMING, sm);
  }

  lemma CleanPostures(f: Fixture)
    requires FixtureOk(f)
    ensures InRange(CleanStatement(f).predicate_, CLEAN_ROW.refs) && Pinned(Postures(CleanStatement(f).predicate_, CLEAN_ROW), f)
  {
    hide BuiltBinding, SealDigest, SignRecord, FixtureOk, IsLowerHex64, RecordKind, RecordPayload, RecordMethod, ArmingPostures, Unique,
      Bound, CleanStatement, ArmingMembers, SealedMembers, PinnedPosture;
    var p := CleanStatement(f).predicate_;
    CleanShape(f);
    CleanReadings(f);
    UniqueKeepsRange(p, CLEAN_ROW.refs);
    var u := Unique(CLEAN_ROW.refs);
    assert IsLowerHex64(BuiltBinding(f)) by { BindingHex(f); }
    FixtureNow(f);
    ArmingCovers(f, BuiltBinding(f), [], PARSE_TIMESTAMP(f.issuedAt).value, DeclaredIds(p));
    KindsDiffer();
    forall k | 0 <= k < |u| && RecordKind(p, u[k]) == KIND_ARMING
      ensures ObjString(RecordPayload(p, u[k]), POSTURE_DIGEST) == Some(PinnedPosture(p))
    {
      assert u[k] in CLEAN_ROW.refs;
      InTwo(u[k]);
    }
    Soundness.PosturesPinned(p, u);
  }

  lemma InTwo(i: int)
    requires i in [0, 1]
    ensures i == 0 || i == 1
  {
  }

  lemma FixtureNow(f: Fixture)
    requires FixtureOk(f)
    ensures PARSE_TIMESTAMP(f.issuedAt).Some? && PARSE_TIMESTAMP(f.armedAt).Some?
    ensures PARSE_TIMESTAMP(f.armedAt).value <= PARSE_TIMESTAMP(f.issuedAt).value
  {
    hide IsLowerHex64;
  }

  lemma CleanReadings(f: Fixture)
    ensures BuiltReads(CleanStatement(f).predicate_, f)
    ensures CleanStatement(f).predicate_.rows == [CLEAN_ROW] && CleanStatement(f).predicate_.result == RESULT_PASS
  {
    hide BuiltBinding, SealDigest, SignRecord, RootHex, Canon, DeclaredIds, PinnedPosture, VocabularyDigest, CorpusDigest;
    BuiltReadings(f, CLEAN_ROW, CleanRecords(f), RESULT_PASS);
  }

  /** The instant a fixture is issued at, and its context. */
  function Now(f: Fixture): int {
    if PARSE_TIMESTAMP(f.issuedAt).Some? then PARSE_TIMESTAMP(f.issuedAt).value else 0
  }

  lemma CleanRowValid(f: Fixture)
    requires FixtureOk(f)
    ensures Readable(CleanStatement(f).predicate_)
    ensures RowValid(CleanStatement(f).predicate_, CLEAN_ROW, Context(BuiltBinding(f), Now(f)))
  {
    hide BuiltBinding, SealDigest, SignRecord, FixtureOk, IsLowerHex64, RecordKind, RecordPayload, RecordMethod, Postures, Covers,
      Bound, CleanStatement, ArmingMembers, SealedMembers, PinnedPosture, DeclaredIds, Requirements, RequiredKind;
    var p := CleanStatement(f).predicate_;
    FixtureNow(f);
    var now := PARSE_TIMESTAMP(f.issuedAt).value;
    CleanShape(f);
    CleanReadings(f);
    CleanPostures(f);
    SealDigestHex([]);
    var postures := Postures(p, CLEAN_ROW);
    FirstCovers(p, f, KIND_ARMING, SealedMembers(f, BuiltBinding(f), SealDigest([])), postures, now);
    SealCovers(p, f, ArmingMembers(f, BuiltBinding(f)), KIND_ARMING, SealDigest([]), postures, now);
    CleanClassified(p);
    assert CLEAN_ROW.refs[0] == 0 && CLEAN_ROW.refs[1] == 1;
    assert Met(p, CLEAN_ROW.refs, KIND_ARMING, postures, now) && Met(p, CLEAN_ROW.refs, KIND_SEALED, postures, now);
    MethodsDiffer();
  }

  lemma MethodsDiffer()
    ensures METHOD_INTERCEPTED != METHOD_RECONSTRUCTED && ATTRIBUTION_PAIRED != ATTRIBUTION_PINNED
  {
    assert METHOD_INTERCEPTED[0] == 'i' && METHOD_RECONSTRUCTED[0] == 'r';
    assert ATTRIBUTION_PAIRED[1] == 'a' && ATTRIBUTION_PINNED[1] == 'i';
  }

  lemma CleanClassified(p: Predicate)
    requires Readable(p) && Voc(p).labels == LABELS && Voc(p).caught == CAUGHT
    ensures !FailsClosed(Voc(p), CLEAN_ROW)
    ensures Requirements(Voc(p), CLEAN_ROW) == [Requirement(KIND_ARMING, CleanRowUncovered), Requirement(KIND_SEALED, CleanRowUncovered)]
  {
    LabelsDiffer();
    MethodsDiffer();
  }

  /** With an arming and a sealed record nothing is observed. */
  lemma CleanObserved(f: Fixture)
    requires FixtureOk(f)
    ensures SealDigest([]) == ObservedSetDigest(CleanStatement(f).predicate_)
  {
    hide BuiltBinding, SealDigest, SignRecord, FixtureOk, RecordKind, RecordPayload, RecordMethod, Bound, CleanStatement, ArmingMembers,
      SealedMembers, LeafHex, ObservedSetDigest;
    var p := CleanStatement(f).predicate_;
    CleanShape(f);
    CleanReadings(f);
    KindsDiffer();
    forall i | 0 <= i < |p.records| ensures !ObservedKind(RecordKind(p, i)) {
      InTwo(i);
    }
    assert p.records == [] + [] + p.records;
    SealOfRun(p, [], [], p.records);
  }

  lemma CleanAnyBasis(f: Fixture)
    requires FixtureOk(f)
    ensures Readable(CleanStatement(f).predicate_) && AnyBasisOk(CleanStatement(f).predicate_)
  {
    hide BuiltBinding, SealDigest, SignRecord, FixtureOk, RecordKind, RecordPayload, RecordMethod, Bound, CleanStatement, ArmingMembers,
      SealedMembers, CleanLabel, CaughtResolves;
    var p := CleanStatement(f).predicate_;
    CleanShape(f);
    CleanReadings(f);
    KindsDiffer();
    MethodsDiffer();
  }

  /** The substrate requirements, on a statement whose first record meets them too. */
  lemma SubstrateBuilt(p: Predicate, f: Fixture, a: seq<Member>, kind: string, observedSet: string, now: int)
    requires FixtureOk(f) && BuiltReads(p, f) && IsLowerHex64(observedSet)
    requires Records(p, f, a, kind, SealedMembers(f, BuiltBinding(f), observedSet)) && kind != KIND_SEALED && IsCoveringKind(kind)
    requires Covers(p, 0, [], now) && observedSet == ObservedSetDigest(p)
    requires kind == KIND_ARMING ==> ObjStrings(Obj(a), ASSESSED_ATTACKS) == Some([ATTACK])
    ensures SubstrateOk(p, Context(BuiltBinding(f), now))
  {
    hide BuiltBinding, SealDigest, SignRecord, FixtureOk, RecordKind, RecordPayload, RecordMethod, Bound, SealedMembers, Covers, IsLowerHex64,
      ObservedSetDigest, ObjString, ObjStrings, DeclaredIds, IsCoveringKind, HasCaughtRow, AscendingIn, Expected, PinnedPosture;
    var b := BuiltBinding(f);
    BindingHex(f);
    SealCovers(p, f, a, kind, observedSet, [], now);
    SealedCovers(f, b, observedSet, [], now, DeclaredIds(p));
    assert GoodSeal(p, 1, Context(b, now));
    forall i | 0 <= i < |p.records| ensures !NamesUncaught(p, i, b) && !WrongSet(p, i, b) && !Defective(p, i, Context(b, now)) {
      NoUncaught(p);
    }
    forall i | 0 <= i < |p.records| ensures !Exceeds(p, i, b) {
      NoneLeftOut(p);
    }
  }

  lemma NoUncaught(p: Predicate)
    requires Readable(p)
    ensures !SomeUncaught(p, [])
  {
  }

  lemma NoneLeftOut(p: Predicate)
    requires CoverageReadable(p) && p.coverage == Some(COVERAGE) && ClassesOf(p.env.value.corpus.value) == CLASSES
    ensures !LeavesOut(p, [ATTACK])
  {
    ManifestClasses();
    forall id: string | Expected(COVERAGE, CLASSES, id) ensures id in [ATTACK] {
      assert Declared(CLASSES, id);
    }
  }

  lemma CleanResult(f: Fixture)
    ensures Recomputed(CleanStatement(f).predicate_) == RESULT_PASS
  {
    hide BuiltBinding, SealDigest, SignRecord, CleanStatement;
    var p := CleanStatement(f).predicate_;
    CleanReadings(f);
    LabelsDiffer();
    assert LABEL_CLEAN in Labels(p) && LABEL_CLEAN !in Recompute.Caught(p);
    assert ClassifyRow(CLEAN_ROW, Labels(p), Recompute.Caught(p)) == DirectClean;
    assert p.rows[0] == CLEAN_ROW;
  }

  lemma CleanSubstrate(f: Fixture)
    requires FixtureOk(f)
    ensures Readable(CleanStatement(f).predicate_) && SubstrateOk(CleanStatement(f).predicate_, Context(BuiltBinding(f), Now(f)))
  {
    hide BuiltBinding, SealDigest, SignRecord, FixtureOk, IsLowerHex64, Bound, CleanStatement, ArmingMembers, SealedMembers, RecordKind,
      RecordPayload, RecordMethod, Covers, SubstrateOk, ObservedSetDigest, PinnedPosture, DeclaredIds, ObjStrings;
    var p := CleanStatement(f).predicate_;
    CleanShape(f);
    CleanReadings(f);
    CleanObserved(f);
    FixtureNow(f);
    BindingHex(f);
    SealDigestHex([]);
    KindsDiffer();
    ArmingCovers(f, BuiltBinding(f), [], Now(f), DeclaredIds(p));
    FirstCovers(p, f, KIND_ARMING, SealedMembers(f, BuiltBinding(f), SealDigest([])), [], Now(f));
    SubstrateBuilt(p, f, ArmingMembers(f, BuiltBinding(f)), KIND_ARMING, SealDigest([]), Now(f));
  }

  lemma BuiltContext(f: Fixture, row: Row, records: seq<Record>, result: string)
    requires FixtureOk(f) && records != []
    ensures ContextOf(BuiltStatement(f, row, records, result)) == Context(BuiltBinding(f), Now(f))
  {
    hide BuiltBinding, StatementBinding, RootHex, BuiltEnvironment, FixtureOk;
    BindingBuilt(f, row, records, result);
  }

  lemma CleanReady(f: Fixture)
    ensures GateReady(CleanStatement(f).predicate_) && WellParsed(CleanStatement(f).predicate_, CleanStatement(f).parseCodes)
    ensures !SomeDangling(CleanStatement(f).predicate_) && BuiltRow(CLEAN_ROW)
  {
    hide BuiltBinding, SealDigest, SignRecord, RootHex, CanonicalVocabulary, ManifestValue, PostureValue, VocabularyDigest, CorpusDigest;
  }

  /** The clean statement is accepted with result pass, unless its two leaves
      collide. */
  lemma CleanAccepted(f: Fixture)
    requires FixtureOk(f)
    requires !Collides(Merkle.LeafInput(StateOf(CleanRecords(f)[0]).pae), Merkle.LeafInput(StateOf(CleanRecords(f)[1]).pae))
    ensures Accepts(CleanStatement(f)) && CleanStatement(f).predicate_.result == RESULT_PASS
  {
    hide FixtureOk, Gate0Ok, GateReady, WellParsed, RecordSetOk, AnyBasisOk, SubstrateOk, RowValid, Recomputed, StatementBinding, BuiltBinding,
      StateOf, RootHex, BuiltEnvironment, SignRecord, ContextOf, SomeDangling, Records, ArmingMembers, SealedMembers, SealDigest, BuiltRow;
    var s := CleanStatement(f);
    CleanReady(f);
    Gate0Built(f, CLEAN_ROW, CleanRecords(f), RESULT_PASS);
    BuiltContext(f, CLEAN_ROW, CleanRecords(f), RESULT_PASS);
    CleanShape(f);
    CleanReadings(f);
    KindsDiffer();
    FixtureNow(f);
    RecordSetBuilt(s, f, ArmingMembers(f, BuiltBinding(f)), KIND_ARMING, SealedMembers(f, BuiltBinding(f), SealDigest([])));
    CleanAnyBasis(f);
    CleanRowValid(f);
    CleanSubstrate(f);
    CleanResult(f);
  }

  // ----- the caught statement -----

  const CAUGHT_ROW: Row := Row(ATTACK, LABEL_CAUGHT, Some(BASIS_SUBSTRATE), Some(METHOD_INTERCEPTED), Some(ATTRIBUTION_PAIRED),
    Some(SINKHOLE_LAYER), true, false, [0])

  function Interception(f: Fixture): Record {
    SignRecord(f, InterceptionMembers(f, BuiltBinding(f)))
  }

  /** The interception, and a seal over it that no row resolves. */
  function CaughtRecords(f: Fixture): seq<Record> {
    [Interception(f), SignRecord(f, SealedMembers(f, BuiltBinding(f), SealDigest([Interception(f)])))]
  }

  function CaughtStatement(f: Fixture): Statement {
    BuiltStatement(f, CAUGHT_ROW, CaughtRecords(f), RESULT_FAIL)
  }

  lemma CaughtShape(f: Fixture)
    requires FixtureOk(f)
    ensures Records(CaughtStatement(f).predicate_, f, InterceptionMembers(f, BuiltBinding(f)), KIND_INTERCEPTION,
                    SealedMembers(f, BuiltBinding(f), SealDigest([Interception(f)])))
  {
    hide FlatMembers, BuiltBinding, SealDigest, SignRecord, BuiltEnvironment, RootHex, FixtureOk, IsLowerHex64, Records;
    var b := BuiltBinding(f);
    BindingHex(f);
    SealDigestHex([Interception(f)]);
    InterceptionFlat(f, b);
    SealedFlat(f, b, SealDigest([Interception(f)]));
    var im, sm := InterceptionMembers(f, b), SealedMembers(f, b, SealDigest([Interception(f)]));
    assert im[0] in im && im[1] in im && im[3] in im && sm[1] in sm && sm[2] in sm && sm[6] in sm;
    RecordsBuilt(CaughtStatement(f).predicate_, f, im, KIND_INTERCEPTION, sm);
  }

  lemma CaughtReadings(f: Fixture)
    ensures BuiltReads(CaughtStatement(f).predicate_, f)
    ensures CaughtStatement(f).predicate_.rows == [CAUGHT_ROW] && CaughtStatement(f).predicate_.result == RESULT_FAIL
    ensures CaughtStatement(f).predicate_.records[0] == Interception(f)
  {
    hide BuiltBinding, SealDigest, SignRecord, RootHex, Canon, DeclaredIds, PinnedPosture, VocabularyDigest, CorpusDigest;
    BuiltReadings(f, CAUGHT_ROW, CaughtRecords(f), RESULT_FAIL);
  }

  lemma CaughtPostures(f: Fixture)
    requires FixtureOk(f)
    ensures InRange(CaughtStatement(f).predicate_, CAUGHT_ROW.refs) && Pinned(Postures(CaughtStatement(f).predicate_, CAUGHT_ROW), f)
  {
    hide BuiltBinding, SealDigest, SignRecord, FixtureOk, RecordKind, RecordPayload, RecordMethod, ArmingPostures, Unique, ObjString,
      Bound, CaughtStatement, InterceptionMembers, SealedMembers, PinnedPosture;
    var p := CaughtStatement(f).predicate_;
    CaughtShape(f);
    CaughtReadings(f);
    UniqueKeepsRange(p, CAUGHT_ROW.refs);
    var u := Unique(CAUGHT_ROW.refs);
    KindsDiffer();
    forall k | 0 <= k < |u| ensures RecordKind(p, u[k]) == KIND_INTERCEPTION {
      assert u[k] in CAUGHT_ROW.refs;
    }
    Soundness.PosturesPinned(p, u);
  }

  lemma CaughtClassified(p: Predicate)
    requires Readable(p) && Voc(p).labels == LABELS && Voc(p).caught == CAUGHT
    ensures !FailsClosed(Voc(p), CAUGHT_ROW)
    ensures Requirements(Voc(p), CAUGHT_ROW) == [Requirement(KIND_INTERCEPTION, CaughtRowUncovered)]
    ensures CaughtLabel(Voc(p), LABEL_CAUGHT) && !CleanLabel(Voc(p), LABEL_CAUGHT)
  {
    LabelsDiffer();
    MethodsDiffer();
  }

  lemma CaughtRowValid(f: Fixture)
    requires FixtureOk(f)
    ensures Readable(CaughtStatement(f).predicate_)
    ensures RowValid(CaughtStatement(f).predicate_, CAUGHT_ROW, Context(BuiltBinding(f), Now(f)))
  {
    hide BuiltBinding, SealDigest, SignRecord, FixtureOk, IsLowerHex64, RecordKind, RecordPayload, RecordMethod, Postures, Covers,
      Bound, CaughtStatement, InterceptionMembers, SealedMembers, PinnedPosture, DeclaredIds, Requirements, RequiredKind;
    var p := CaughtStatement(f).predicate_;
    FixtureNow(f);
    CaughtShape(f);
    CaughtReadings(f);
    CaughtPostures(f);
    KindsDiffer();
    var postures := Postures(p, CAUGHT_ROW);
    FirstCovers(p, f, KIND_INTERCEPTION, SealedMembers(f, BuiltBinding(f), SealDigest([Interception(f)])), postures, Now(f));
    CaughtClassified(p);
    assert CAUGHT_ROW.refs[0] == 0;
    assert Met(p, CAUGHT_ROW.refs, KIND_INTERCEPTION, postures, Now(f));
    MethodsDiffer();
  }

  /** The only observed leaf is the interception's. */
  lemma CaughtObserved(f: Fixture)
    requires FixtureOk(f)
    ensures SealDigest([Interception(f)]) == ObservedSetDigest(CaughtStatement(f).predicate_)
  {
    hide BuiltBinding, SealDigest, SignRecord, FixtureOk, RecordKind, RecordPayload, RecordMethod, Bound, CaughtStatement,
      InterceptionMembers, SealedMembers, LeafHex, ObservedSetDigest, Interception;
    var p := CaughtStatement(f).predicate_;
    CaughtShape(f);
    CaughtReadings(f);
    KindsDiffer();
    assert ObservedKind(RecordKind(p, 0)) && !ObservedKind(RecordKind(p, 1));
    assert p.records == [] + [Interception(f)] + p.records[1..];
    SealOfRun(p, [], [Interception(f)], p.records[1..]);
  }

  lemma CaughtAnyBasis(f: Fixture)
    requires FixtureOk(f)
    ensures Readable(CaughtStatement(f).predicate_) && AnyBasisOk(CaughtStatement(f).predicate_)
  {
    hide BuiltBinding, SealDigest, SignRecord, FixtureOk, RecordKind, RecordPayload, RecordMethod, Bound, CaughtStatement,
      InterceptionMembers, SealedMembers, CleanLabel, CaughtLabel;
    var p := CaughtStatement(f).predicate_;
    CaughtShape(f);
    CaughtReadings(f);
    CaughtClassified(p);
    KindsDiffer();
    MethodsDiffer();
    assert CAUGHT_ROW.refs[0] == 0 && p.rows[0] == CAUGHT_ROW;
    assert Resolves(p, CAUGHT_ROW, 0) && CaughtResolves(p, p.rows, 0);
  }

  lemma CaughtResult(f: Fixture)
    ensures Recomputed(CaughtStatement(f).predicate_) == RESULT_FAIL
  {
    hide BuiltBinding, SealDigest, SignRecord, CaughtStatement;
    var p := CaughtStatement(f).predicate_;
    CaughtReadings(f);
    LabelsDiffer();
    assert LABEL_CAUGHT in Recompute.Caught(p);
    assert ClassifyRow(p.rows[0], Labels(p), Recompute.Caught(p)) == ForcesFail;
  }

  lemma CaughtSubstrate(f: Fixture)
    requires FixtureOk(f)
    ensures Readable(CaughtStatement(f).predicate_) && SubstrateOk(CaughtStatement(f).predicate_, Context(BuiltBinding(f), Now(f)))
  {
    hide BuiltBinding, SealDigest, SignRecord, FixtureOk, IsLowerHex64, Bound, CaughtStatement, InterceptionMembers, SealedMembers,
      RecordKind, RecordPayload, RecordMethod, Covers, SubstrateOk, ObservedSetDigest, PinnedPosture, DeclaredIds, ObjStrings, Interception;
    var p := CaughtStatement(f).predicate_;
    CaughtShape(f);
    CaughtReadings(f);
    CaughtObserved(f);
    FixtureNow(f);
    SealDigestHex([Interception(f)]);
    KindsDiffer();
    FirstCovers(p, f, KIND_INTERCEPTION, SealedMembers(f, BuiltBinding(f), SealDigest([Interception(f)])), [], Now(f));
    SubstrateBuilt(p, f, InterceptionMembers(f, BuiltBinding(f)), KIND_INTERCEPTION, SealDigest([Interception(f)]), Now(f));
  }

  lemma CaughtReady(f: Fixture)
    ensures GateReady(CaughtStatement(f).predicate_) && WellParsed(CaughtStatement(f).predicate_, CaughtStatement(f).parseCodes)
    ensures !SomeDangling(CaughtStatement(f).predicate_) && BuiltRow(CAUGHT_ROW)
  {
    hide BuiltBinding, SealDigest, SignRecord, RootHex, CanonicalVocabulary, ManifestValue, PostureValue, VocabularyDigest, CorpusDigest;
  }

  /** The caught statement is accepted with result fail, unless its two leaves
      collide. */
  lemma CaughtAccepted(f: Fixture)
    requires FixtureOk(f)
    requires !Collides(Merkle.LeafInput(StateOf(CaughtRecords(f)[0]).pae), Merkle.LeafInput(StateOf(CaughtRecords(f)[1]).pae))
    ensures Accepts(CaughtStatement(f)) && CaughtStatement(f).predicate_.result == RESULT_FAIL
  {
    hide FixtureOk, Gate0Ok, GateReady, WellParsed, RecordSetOk, AnyBasisOk, SubstrateOk, RowValid, Recomputed, StatementBinding, BuiltBinding,
      StateOf, RootHex, BuiltEnvironment, SignRecord, ContextOf, SomeDangling, Records, InterceptionMembers, SealedMembers, SealDigest, BuiltRow;
    var s := CaughtStatement(f);
    CaughtReady(f);
    Gate0Built(f, CAUGHT_ROW, CaughtRecords(f), RESULT_FAIL);
    BuiltContext(f, CAUGHT_ROW, CaughtRecords(f), RESULT_FAIL);
    CaughtShape(f);
    CaughtReadings(f);
    KindsDiffer();
    FixtureNow(f);
    RecordSetBuilt(s, f, InterceptionMembers(f, BuiltBinding(f)), KIND_INTERCEPTION,
      SealedMembers(f, BuiltBinding(f), SealDigest([Interception(f)])));
    CaughtAnyBasis(f);
    CaughtRowValid(f);
    CaughtSubstrate(f);
    CaughtResult(f);
  }
}
