/** GATE 0 in plain terms: for every code the condition on the statement under which it
    is raised, written out over the statement's own members. */
module GateRules {
  import opened Core
  import opened Order
  import opened Sorting
  import opened Json
  import opened Codes
  import opened Statements
  import opened CorpusManifest
  import opened Gate0
  import Witnesses

  function DigestOf(d: Option<DigestSet>): string {
    if d.Some? && "sha256" in d.value then d.value["sha256"] else ""
  }

  /** 64 lowercase hexadecimal digits. */
  predicate Hex64(d: string) {
    |d| == 64 && forall i :: 0 <= i < 64 ==> d[i] in "0123456789abcdef"
  }

  predicate Ascends(ss: seq<string>) {
    forall i, j :: 0 <= i < j < |ss| ==> Utf16Less(ss[i], ss[j])
  }

  predicate BeyondBmp(ss: seq<string>) {
    exists i, j :: 0 <= i < |ss| && 0 <= j < |ss[i]| && ss[i][j] as int >= 0x10000
  }

  // ----- the vocabulary -----

  /** The canonical text of {"caught":[...],"labels":[...]}. */
  function VocabularyText(labels: seq<string>, caught: seq<string>): bytes {
    Canon(Witnesses.VocabularyValue(labels, caught))
  }

  function VocabularyFaults(v: Vocabulary): set<Code> {
    var complete := v.labelsPresent && v.caughtPresent;
    With(With(With({},
      !complete || !Ascends(v.labels) || !Ascends(v.caught) || BeyondBmp(v.labels) || BeyondBmp(v.caught),
      VocabularyNotCanonical),
      complete && exists i :: 0 <= i < |v.caught| && v.caught[i] !in v.labels, VocabularyCaughtNotSubset),
      complete && DigestOf(Some(v.digest)) != SHA256Hex(VocabularyText(v.labels, v.caught)), VocabularyDigestMismatch)
  }

  lemma VocabularyRule(v: Vocabulary, acc: set<Code>)
    ensures VocabularyCodes(v, acc) == acc + VocabularyFaults(v)
  {
    hide StrictlyAscending, Ascends, SHA256Hex, CanonicalVocabulary, VocabularyText, AllBmp, BeyondBmp, Subset;
    TextRule(v.labels, v.caught);
    WithinBmp(v.labels);
    WithinBmp(v.caught);
    AscendsRule(v.labels);
    AscendsRule(v.caught);
    SubsetRule(v.caught, v.labels);
    assert DigestOf(Some(v.digest)) == Sha256Member(v.digest);
  }

  lemma TextRule(labels: seq<string>, caught: seq<string>)
    ensures CanonicalVocabulary(labels, caught) == VocabularyText(labels, caught)
  {
    Witnesses.VocabularyIsCanonical(labels, caught);
  }

  lemma AscendsRule(ss: seq<string>)
    ensures StrictlyAscending(ss) <==> Ascends(ss)
  {
  }

  lemma SubsetRule(a: seq<string>, b: seq<string>)
    ensures Subset(a, b) <==> !exists i :: 0 <= i < |a| && a[i] !in b
  {
  }

  lemma WithinBmp(ss: seq<string>)
    ensures AllBmp(ss) <==> !BeyondBmp(ss)
  {
    if i, j :| 0 <= i < |ss| && 0 <= j < |ss[i]| && ss[i][j] as int >= 0x10000 {
      assert !BmpOnly(ss[i]);
    }
  }

  // ----- the corpus -----

  predicate IsAttack(classes: Classes, id: string) {
    exists c :: c in classes && id in classes[c]
  }

  /** One identifier at two places. */
  predicate Repeats(classes: Classes) {
    exists c, d :: c in classes && d in classes && RepeatsIn(classes[c], classes[d], c == d)
  }

  predicate RepeatsIn(a: seq<string>, b: seq<string>, same: bool) {
    exists i, j :: 0 <= i < |a| && 0 <= j < |b| && a[i] == b[j] && !(same && i == j)
  }

  /** An entry for no declared attack, or whose list is empty, out of order or holds
      something else than digests. */
  predicate EntryBad(id: string, values: seq<string>, classes: Classes) {
    !IsAttack(classes, id) || values == [] || !Ascends(values) || exists i :: 0 <= i < |values| && !Hex64(values[i])
  }

  predicate PayloadsBad(x: ExpectedPayloads, classes: Classes) {
    x.MalformedPayloads? || (x.Payloads? && exists id :: id in x.entries && EntryBad(id, x.entries[id], classes))
  }

  function Declares(k: Corpus): Classes {
    if k.classes.Some? then k.classes.value else map[]
  }

  /** No class holds an identifier. */
  predicate Empty(classes: Classes) {
    !exists id, n :: n in classes && id in classes[n]
  }

  function CorpusFaults(k: Corpus): set<Code> {
    var there := k.manifestRaw != [];
    var read := there && Canonicalize(k.manifestRaw).Ok?;
    With(With(With(With(With(With({},
      !there, EnvironmentIncomplete),
      there && !read, StatementMalformed),
      read && DigestOf(Some(k.digest)) != SHA256Hex(Canonicalize(k.manifestRaw).value), CorpusDigestMismatch),
      read && Repeats(Declares(k)), ManifestDuplicateAttack),
      read && Empty(Declares(k)), CorpusManifestNoAttacks),
      read && PayloadsBad(k.payloads, Declares(k)), ManifestExpectedPayloadsMalformed)
  }

  lemma CorpusRule(k: Corpus, acc: set<Code>)
    ensures CorpusCodes(k, acc) == acc + CorpusFaults(k)
  {
    hide Canonicalize, SHA256Hex, EachOnce, Repeats, PayloadsOk, PayloadsBad, NoAttacks, Empty;
    var classes := ClassesOf(k);
    assert Declares(k) == classes && DigestOf(Some(k.digest)) == Sha256Member(k.digest);
    RepeatsRule(classes);
    PayloadsRule(k.payloads, classes);
    EmptyRule(classes);
  }

  lemma EmptyRule(classes: Classes)
    ensures NoAttacks(classes) <==> Empty(classes)
  {
    if n :| n in classes && classes[n] != [] {
      assert classes[n][0] in classes[n];
    }
  }

  lemma RepeatsRule(classes: Classes)
    ensures EachOnce(classes) <==> !Repeats(classes)
  {
    hide Distinct, Apart, RepeatsIn;
    forall c, d | c in classes && d in classes
      ensures RepeatsIn(classes[c], classes[d], c == d) <==> if c == d then !Distinct(classes[c]) else !Apart(classes[c], classes[d])
    {
      RepeatsInOne(classes[c]);
      RepeatsInTwo(classes[c], classes[d]);
    }
  }

  lemma RepeatsInOne(a: seq<string>)
    ensures RepeatsIn(a, a, true) <==> !Distinct(a)
  {
  }

  lemma RepeatsInTwo(a: seq<string>, b: seq<string>)
    ensures RepeatsIn(a, b, false) <==> !Apart(a, b)
  {
  }

  lemma HexRule(d: string)
    ensures IsLowerHex64(d) <==> Hex64(d)
  {
    forall c: char ensures IsLowerHexDigit(c) <==> c in "0123456789abcdef" {
      FigureRule(c);
    }
  }

  lemma FigureRule(c: char)
    ensures IsLowerHexDigit(c) <==> c in "0123456789abcdef"
  {
    var figures := "0123456789abcdef";
    if '0' <= c <= '9' {
      assert figures[c as int - '0' as int] == c;
    } else if 'a' <= c <= 'f' {
      assert figures[10 + (c as int - 'a' as int)] == c;
    }
  }

  lemma EntryRule(id: string, values: seq<string>, classes: Classes)
    ensures PayloadEntryOk(id, values, classes) <==> !EntryBad(id, values, classes)
  {
    hide IsLowerHex64, Hex64, Utf16Less;
    forall i | 0 <= i < |values| ensures IsLowerHex64(values[i]) <==> Hex64(values[i]) {
      HexRule(values[i]);
    }
  }

  lemma PayloadsRule(x: ExpectedPayloads, classes: Classes)
    ensures PayloadsOk(x, classes) <==> !PayloadsBad(x, classes)
  {
    hide PayloadEntryOk, EntryBad;
    if x.Payloads? {
      forall id | id in x.entries ensures PayloadEntryOk(id, x.entries[id], classes) <==> !EntryBad(id, x.entries[id], classes) {
        EntryRule(id, x.entries[id], classes);
      }
    }
  }

  // ----- coverage -----

  /** Every class is assessed once, out of scope, or routed elsewhere, and nothing else
      is. */
  predicate Partitions(cov: Coverage, classes: Classes) {
    && (forall i, j :: 0 <= i < j < |cov.assessedClasses| ==> cov.assessedClasses[i] != cov.assessedClasses[j])
    && (forall i :: 0 <= i < |cov.assessedClasses| ==>
          cov.assessedClasses[i] !in cov.outOfScope && cov.assessedClasses[i] !in cov.routedElsewhere)
    && cov.outOfScope.Keys !! cov.routedElsewhere.Keys
    && (set c | c in cov.assessedClasses) + cov.outOfScope.Keys + cov.routedElsewhere.Keys == classes.Keys
  }

  /** How often the class is named, one member at a time. */
  predicate Once(cov: Coverage, classes: Classes, c: string) {
    Accounted(cov, c) == if c in classes then 1 else 0
  }

  lemma PartitionRule(cov: Coverage, classes: Classes)
    ensures Partition(cov, classes) <==> Partitions(cov, classes)
  {
    hide Accounted, Once;
    if Partition(cov, classes) {
      forall c: string ensures Once(cov, classes, c) {
        OnceIs(cov, classes, c);
      }
      PartitionParts(cov, classes);
    }
    if Partitions(cov, classes) {
      forall c: string ensures Accounted(cov, c) == if c in classes then 1 else 0 {
        PartOnce(cov, classes, c);
        OnceIs(cov, classes, c);
      }
    }
  }

  lemma OnceIs(cov: Coverage, classes: Classes, c: string)
    ensures Once(cov, classes, c) <==> Accounted(cov, c) == if c in classes then 1 else 0
  {
  }

  lemma PartitionParts(cov: Coverage, classes: Classes)
    requires forall c: string :: Once(cov, classes, c)
    ensures Partitions(cov, classes)
  {
    var a := cov.assessedClasses;
    forall i, j | 0 <= i < j < |a| ensures a[i] != a[j] {
      assert Once(cov, classes, a[i]);
      if a[i] == a[j] {
        TwiceListed(a, i, j);
      }
    }
    forall i | 0 <= i < |a| ensures a[i] !in cov.outOfScope && a[i] !in cov.routedElsewhere {
      assert Once(cov, classes, a[i]) && a[i] in a && a[i] in multiset(a);
    }
    forall c | c in cov.outOfScope ensures c !in cov.routedElsewhere {
      assert Once(cov, classes, c);
    }
    forall c: string
      ensures c in (set c | c in a) + cov.outOfScope.Keys + cov.routedElsewhere.Keys <==> c in classes.Keys
    {
      assert Once(cov, classes, c);
      assert c in multiset(a) <==> c in a;
    }
  }

  lemma PartOnce(cov: Coverage, classes: Classes, c: string)
    requires Partitions(cov, classes)
    ensures Once(cov, classes, c)
  {
    OnceListed(cov.assessedClasses, c);
    assert c in (set c | c in cov.assessedClasses) + cov.outOfScope.Keys + cov.routedElsewhere.Keys <==> c in classes.Keys;
  }

  lemma TwiceListed(a: seq<string>, i: nat, j: nat)
    requires i < j < |a| && a[i] == a[j]
    ensures multiset(a)[a[i]] >= 2
  {
    assert a == a[..j] + [a[j]] + a[j + 1..];
    assert a[..j][i] == a[i];
    assert a[i] in multiset(a[..j]);
  }

  lemma {:induction false} OnceListed(a: seq<string>, c: string)
    requires forall i, j :: 0 <= i < j < |a| ==> a[i] != a[j]
    ensures multiset(a)[c] == if c in a then 1 else 0
  {
    if a != [] {
      var init, last := a[..|a| - 1], a[|a| - 1];
      assert a == init + [last];
      OnceListed(init, c);
    }
  }

  /** Some row carries the identifier. */
  predicate Rowed(rows: seq<Row>, id: string) {
    exists i :: 0 <= i < |rows| && rows[i].attackId == id
  }

  /** The identifier belongs to an assessed class. */
  predicate Assessed(cov: Coverage, classes: Classes, id: string) {
    exists k :: 0 <= k < |cov.assessedClasses| && cov.assessedClasses[k] in classes && id in classes[cov.assessedClasses[k]]
  }

  /** The rows carry exactly the identifiers of the assessed classes. */
  ghost predicate RowsMatch(rows: seq<Row>, cov: Coverage, classes: Classes) {
    forall id: string :: Rowed(rows, id) <==> Assessed(cov, classes, id)
  }

  predicate RowTwice(rows: seq<Row>) {
    exists i, j :: 0 <= i < j < |rows| && rows[i].attackId == rows[j].attackId
  }

  ghost function IntegrityFaults(p: Predicate, cov: Coverage, classes: Classes): set<Code> {
    With(With(With({},
      !Partitions(cov, classes) || !RowsMatch(p.rows, cov, classes), CoverageIncomplete),
      RowTwice(p.rows), StatementMalformed),
      exists i :: 0 <= i < |p.rows| && !IsAttack(classes, p.rows[i].attackId), RowAttackUnknown)
  }

  lemma IntegrityRule(p: Predicate, cov: Coverage, classes: Classes, acc: set<Code>)
    ensures IntegrityCodes(p, cov, classes, acc) == acc + IntegrityFaults(p, cov, classes)
  {
    hide Partition, Partitions, RowsAsExpected, RowsMatch, Distinct, RowTwice, RowIds, RowUnknown;
    PartitionRule(cov, classes);
    RowsRule(p, cov, classes);
    TwiceRule(p.rows);
    UnknownRule(p, classes);
  }

  lemma TwiceRule(rows: seq<Row>)
    ensures Distinct(RowIds(rows)) <==> !RowTwice(rows)
  {
    var ids := RowIds(rows);
    if !Distinct(ids) {
      var i, j :| 0 <= i < j < |ids| && ids[i] == ids[j];
      assert rows[i].attackId == rows[j].attackId;
    }
    if i, j :| 0 <= i < j < |rows| && rows[i].attackId == rows[j].attackId {
      assert ids[i] == ids[j];
    }
  }

  lemma UnknownRule(p: Predicate, classes: Classes)
    ensures RowUnknown(p, classes) <==> exists i :: 0 <= i < |p.rows| && !IsAttack(classes, p.rows[i].attackId)
  {
  }

  lemma RowsRule(p: Predicate, cov: Coverage, classes: Classes)
    ensures RowsAsExpected(p, cov, classes) <==> RowsMatch(p.rows, cov, classes)
  {
    forall id: string ensures HasRow(p.rows, id) <==> Rowed(p.rows, id) {}
    forall id: string ensures Expected(cov, classes, id) <==> Assessed(cov, classes, id) {}
  }

  // ----- the other steps -----

  function EnvelopeFaults(s: Statement): set<Code> {
    var p := s.predicate_;
    With(With(With(With({},
      s.type_ != "https://in-toto.io/Statement/v1", StatementTypeUnsupported),
      s.predicateType != "https://in-toto.io/attestation/adversarial-execution-evidence/v0.7", PredicateTypeUnsupported),
      p.snakeCaseSpelling, MemberSpelling),
      !p.resultPresent || p.result !in {"pass", "pass_indirect", "degraded", "fail"}, ResultVocabulary)
    + set c | c in s.parseCodes
  }

  lemma EnvelopeRule(s: Statement)
    ensures EnvelopeCodes(s) == EnvelopeFaults(s)
  {
  }

  function EnvironmentFaults(env: Option<Environment>): set<Code> {
    With(With(With({},
      env.None? || env.value.substrate.None? || env.value.corpus.None? || env.value.catchPolicy.None?
      || env.value.networkPosture.None?, EnvironmentIncomplete),
      env.None? || env.value.vocabulary.None?, VocabularyMissing),
      env.Some? && env.value.networkPosture.Some?
      && env.value.networkPosture.value.posture !in {"no_network", "allowlist", "sinkhole", "unsafe_bypass_egress"},
      PostureVocabulary)
  }

  lemma EnvironmentRule(env: Option<Environment>, acc: set<Code>)
    ensures EnvironmentCodes(env, acc) == acc + EnvironmentFaults(env)
  {
  }

  function PresenceFaults(s: Statement): set<Code> {
    With(With(With({},
      !s.predicate_.coveragePresent, CoverageMissing),
      !s.predicate_.rowsPresent, StatementMalformed),
      |s.subject| != 1, SubjectCardinality)
  }

  /** A row without a layer; and, under a vocabulary that raised nothing, a row whose
      label is clean and whose layer is not "none". */
  function LayerFaults(p: Predicate, raised: set<Code>): set<Code> {
    With(With({},
      exists i :: 0 <= i < |p.rows| && p.rows[i].actualLayer.None?, MissingActualLayer),
      p.env.Some? && p.env.value.vocabulary.Some?
      && raised !! {VocabularyMissing, VocabularyNotCanonical, VocabularyCaughtNotSubset, VocabularyDigestMismatch}
      && exists i :: 0 <= i < |p.rows| && CleanBut(p.env.value.vocabulary.value, p.rows[i]), CleanRowLayerNotNone)
  }

  predicate CleanBut(v: Vocabulary, row: Row) {
    row.containmentObserved in v.labels && row.containmentObserved !in v.caught
    && row.actualLayer.Some? && row.actualLayer.value != "none"
  }

  lemma LayerRule(p: Predicate, acc: set<Code>)
    ensures LayerCodes(p, acc) == acc + LayerFaults(p, acc)
  {
    hide CleanRowWithLayer, CleanBut, AnyVocabularyCode;
    forall v: Vocabulary, i | 0 <= i < |p.rows| ensures CleanRowWithLayer(v, p.rows[i]) <==> CleanBut(v, p.rows[i]) {
      CleanRule(v, p.rows[i]);
    }
    RaisedRule(acc);
  }

  lemma CleanRule(v: Vocabulary, row: Row)
    ensures CleanRowWithLayer(v, row) <==> CleanBut(v, row)
  {
  }

  lemma RaisedRule(acc: set<Code>)
    ensures AnyVocabularyCode(acc) <==>
            !(acc !! {VocabularyMissing, VocabularyNotCanonical, VocabularyCaughtNotSubset, VocabularyDigestMismatch})
  {
    var four := {VocabularyMissing, VocabularyNotCanonical, VocabularyCaughtNotSubset, VocabularyDigestMismatch};
    forall c ensures IsVocabularyCode(c) <==> c in four {}
  }

  predicate NotDigest(d: string) {
    d != "" && !Hex64(d)
  }

  function BindingFaults(s: Statement): set<Code> {
    var env := s.predicate_.env;
    var entropy := env.Some? && env.value.runEntropy.Some?;
    With(With(With({},
      !entropy, RunEntropyMissing),
      s.subject != [] && "sha256" !in s.subject[0], SubjectSha256Missing),
      || (entropy && !Hex64(DigestOf(env.value.runEntropy)))
      || (s.subject != [] && "sha256" in s.subject[0] && !Hex64(s.subject[0]["sha256"]))
      || (env.Some? && (NotDigest(DigestOf(env.value.catchPolicy)) || NotDigest(DigestOf(env.value.substrate))
                        || (env.value.corpus.Some? && NotDigest(DigestOf(Some(env.value.corpus.value.digest))))
                        || (env.value.networkPosture.Some? && NotDigest(DigestOf(Some(env.value.networkPosture.value.digest)))))),
      DigestNotCanonical)
  }

  lemma BindingRule(s: Statement, acc: set<Code>)
    ensures BindingInputCodes(s, acc) == acc + BindingFaults(s)
  {
    hide IsLowerHex64, Hex64;
    forall d: string ensures IsLowerHex64(d) <==> Hex64(d) {
      HexRule(d);
    }
    forall d: Option<DigestSet> ensures RefSha256(d) == DigestOf(d) {}
  }

  function TimeFaults(p: Predicate): set<Code> {
    With(With({},
      !p.issuedAtPresent, IssuedAtMissing),
      p.issuedAtPresent && PARSE_TIMESTAMP(p.issuedAt).None?, IssuedAtMalformed)
  }

  // ----- the gate -----

  /** What is raised before the rows are looked at. */
  function EarlyFaults(s: Statement): set<Code> {
    var env := s.predicate_.env;
    EnvelopeFaults(s) + EnvironmentFaults(env)
    + (if env.Some? && env.value.vocabulary.Some? then VocabularyFaults(env.value.vocabulary.value) else {})
    + (if env.Some? && env.value.corpus.Some? then CorpusFaults(env.value.corpus.value) else {})
    + PresenceFaults(s)
  }

  ghost function LateFaults(s: Statement): set<Code> {
    var p := s.predicate_;
    var checked := p.env.Some? && p.env.value.corpus.Some? && p.env.value.corpus.value.classes.Some? && p.coverage.Some?;
    (if checked then IntegrityFaults(p, p.coverage.value, p.env.value.corpus.value.classes.value) else {})
    + (if exists i :: 0 <= i < |p.rows| && p.rows[i].basis == Some("substrate") then BindingFaults(s) else {})
    + TimeFaults(p)
  }

  /** GATE 0 raises exactly these codes, each under its condition. */
  lemma Gate0Rules(s: Statement)
    ensures Gate0Codes(s) == EarlyFaults(s) + LayerFaults(s.predicate_, EarlyFaults(s)) + LateFaults(s)
  {
    hide EnvelopeCodes, EnvironmentCodes, VocabularyCodes, CorpusCodes, LayerCodes, IntegrityCodes, BindingInputCodes,
      EnvelopeFaults, EnvironmentFaults, VocabularyFaults, CorpusFaults, LayerFaults, IntegrityFaults, BindingFaults;
    var p := s.predicate_;
    var env := p.env;
    EnvelopeRule(s);
    EnvironmentRule(env, EnvelopeCodes(s));
    var a := EnvironmentCodes(env, EnvelopeCodes(s));
    if env.Some? && env.value.vocabulary.Some? {
      VocabularyRule(env.value.vocabulary.value, a);
    }
    if env.Some? && env.value.corpus.Some? {
      CorpusRule(env.value.corpus.value, if env.value.vocabulary.Some? then VocabularyCodes(env.value.vocabulary.value, a) else a);
    }
    var early := PresenceCodes(s, CommittedCodes(env, a));
    assert early == EarlyFaults(s);
    LayerRule(p, early);
    var b := LayerCodes(p, early);
    if IntegrityChecked(p) {
      IntegrityRule(p, p.coverage.value, env.value.corpus.value.classes.value, b);
    }
    BindingRule(s, if IntegrityChecked(p) then IntegrityCodes(p, p.coverage.value, env.value.corpus.value.classes.value, b) else b);
    SubstrateRule(p);
  }

  lemma SubstrateRule(p: Predicate)
    ensures HasSubstrateRows(p) <==> exists i :: 0 <= i < |p.rows| && p.rows[i].basis == Some("substrate")
  {
    if i :| 0 <= i < |p.rows| && p.rows[i].basis == Some("substrate") {
      assert IsSubstrate(p.rows[i]);
    }
  }
}
