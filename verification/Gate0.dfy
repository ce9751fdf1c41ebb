/** GATE 0, statement well-formedness (aee/statement.go). Each part of the gate is a
    method over the list of codes so far; its specification is the set of codes it
    leaves, each under the condition on the statement that calls for it. */
module Gate0 {
  import opened Core
  import opened Order
  import opened Sorting
  import opened Scan
  import opened Json
  import opened Codec
  import opened Codes
  import opened Statements
  import opened CorpusManifest

  // ----- envelope, result, environment -----

  predicate IsResultToken(v: string) {
    v == RESULT_PASS || v == RESULT_PASS_INDIRECT || v == RESULT_DEGRADED || v == RESULT_FAIL
  }

  /** Steps 1 to 4. */
  function EnvelopeCodes(s: Statement): set<Code> {
    var p := s.predicate_;
    With(With(Join(With(With({}, s.type_ != STATEMENT_TYPE, StatementTypeUnsupported),
                        s.predicateType != PREDICATE_TYPE, PredicateTypeUnsupported),
                   CodeSet(s.parseCodes)),
              p.snakeCaseSpelling, MemberSpelling),
         !p.resultPresent || !IsResultToken(p.result), ResultVocabulary)
  }

  method Envelope(s: Statement) returns (codes: CodeList)
    ensures CodeSet(codes) == EnvelopeCodes(s)
  {
    var p := s.predicate_;
    codes := [];
    if s.type_ != STATEMENT_TYPE {
      codes := AppendCode(codes, StatementTypeUnsupported);
    }
    if s.predicateType != PREDICATE_TYPE {
      codes := AppendCode(codes, PredicateTypeUnsupported);
    }
    codes := AppendCodes(codes, s.parseCodes);
    if p.snakeCaseSpelling {
      codes := AppendCode(codes, MemberSpelling);
    }
    if !p.resultPresent || !IsResultToken(p.result) {
      codes := AppendCode(codes, ResultVocabulary);
    }
  }

  /** Step 5: the members are there, and the posture is a registered one. */
  function EnvironmentCodes(env: Option<Environment>, acc: set<Code>): set<Code> {
    match env
    case None => With(With(acc, true, EnvironmentIncomplete), true, VocabularyMissing)
    case Some(e) =>
      With(With(With(acc,
        e.substrate.None? || e.corpus.None? || e.catchPolicy.None? || e.networkPosture.None?, EnvironmentIncomplete),
        e.vocabulary.None?, VocabularyMissing),
        e.networkPosture.Some? && e.networkPosture.value.posture !in EGRESS_POSTURES, PostureVocabulary)
  }

  method EnvironmentMembers(env: Option<Environment>, before: CodeList) returns (codes: CodeList)
    ensures CodeSet(codes) == EnvironmentCodes(env, CodeSet(before))
  {
    hide CodeSet;
    codes := before;
    if env.None? {
      codes := AppendCode(codes, EnvironmentIncomplete);
      codes := AppendCode(codes, VocabularyMissing);
    } else {
      var e := env.value;
      if e.substrate.None? || e.corpus.None? || e.catchPolicy.None? || e.networkPosture.None? {
        codes := AppendCode(codes, EnvironmentIncomplete);
      }
      if e.vocabulary.None? {
        codes := AppendCode(codes, VocabularyMissing);
      }
      if e.networkPosture.Some? && e.networkPosture.value.posture !in EGRESS_POSTURES {
        codes := AppendCode(codes, PostureVocabulary);
      }
    }
  }

  // ----- the vocabulary -----

  function CaughtPrefix(): bytes {
    [OPEN_BRACE] + JcsString("caught") + [COLON]
  }

  function LabelsPrefix(): bytes {
    [COMMA] + JcsString("labels") + [COLON]
  }

  /** canonicalVocabulary: the digest pre-image {"caught":[...],"labels":[...]}. */
  function CanonicalVocabulary(labels: seq<string>, caught: seq<string>): bytes {
    CaughtPrefix() + StringArrayText(caught) + LabelsPrefix() + StringArrayText(labels) + [CLOSE_BRACE]
  }

  method WriteVocabulary(labels: seq<string>, caught: seq<string>) returns (text: bytes)
    ensures text == CanonicalVocabulary(labels, caught)
  {
    hide CaughtPrefix, LabelsPrefix, StringArrayText;
    var buf := new Buffer();
    buf.Write(CaughtPrefix());
    assert buf.data == CaughtPrefix();
    AppendStringArray(buf, caught);
    buf.Write(LabelsPrefix());
    AppendStringArray(buf, labels);
    buf.Write([CLOSE_BRACE]);
    text := buf.data;
  }

  predicate AllBmp(ss: seq<string>) {
    forall i :: 0 <= i < |ss| ==> BmpOnly(ss[i])
  }

  method VocabularyStringsBmpOnly(labels: seq<string>, caught: seq<string>) returns (ok: bool)
    ensures ok == (AllBmp(labels) && AllBmp(caught))
  {
    for i := 0 to |labels|
      invariant forall k :: 0 <= k < i ==> BmpOnly(labels[k])
    {
      if !BmpOnly(labels[i]) {
        return false;
      }
    }
    for i := 0 to |caught|
      invariant forall k :: 0 <= k < i ==> BmpOnly(caught[k])
    {
      if !BmpOnly(caught[i]) {
        return false;
      }
    }
    return true;
  }

  predicate Subset(a: seq<string>, b: seq<string>) {
    forall i :: 0 <= i < |a| ==> a[i] in b
  }

  /** Step 6. */
  function VocabularyCodes(v: Vocabulary, acc: set<Code>): set<Code> {
    if !v.labelsPresent || !v.caughtPresent then With(acc, true, VocabularyNotCanonical)
    else
      With(With(With(acc,
        !StrictlyAscending(v.labels) || !StrictlyAscending(v.caught) || !AllBmp(v.labels) || !AllBmp(v.caught),
        VocabularyNotCanonical),
        !Subset(v.caught, v.labels), VocabularyCaughtNotSubset),
        Sha256Member(v.digest) != SHA256Hex(CanonicalVocabulary(v.labels, v.caught)), VocabularyDigestMismatch)
  }

  method CheckVocabulary(v: Vocabulary, before: CodeList) returns (codes: CodeList)
    ensures CodeSet(codes) == VocabularyCodes(v, CodeSet(before))
  {
    hide CodeSet, StrictlyAscending, AllBmp, CanonicalVocabulary, SHA256Hex;
    codes := before;
    if !v.labelsPresent || !v.caughtPresent {
      codes := AppendCode(codes, VocabularyNotCanonical);
      return;
    }
    var labelsSorted := IsSortedNoDuplicates(v.labels);
    var caughtSorted := IsSortedNoDuplicates(v.caught);
    if !labelsSorted || !caughtSorted {
      codes := AppendCode(codes, VocabularyNotCanonical);
    }
    var bmp := VocabularyStringsBmpOnly(v.labels, v.caught);
    if !bmp {
      codes := AppendCode(codes, VocabularyNotCanonical);
    }
    var subset := IsSubset(v.caught, v.labels);
    if !subset {
      codes := AppendCode(codes, VocabularyCaughtNotSubset);
    }
    var text := WriteVocabulary(v.labels, v.caught);
    if Sha256Member(v.digest) != SHA256Hex(text) {
      codes := AppendCode(codes, VocabularyDigestMismatch);
    }
  }

  /** The loop over caught, against the set of labels. */
  method IsSubset(a: seq<string>, b: seq<string>) returns (ok: bool)
    ensures ok == Subset(a, b)
  {
    var members := StringSet(b);
    for i := 0 to |a|
      invariant forall k :: 0 <= k < i ==> a[k] in b
    {
      if a[i] !in members {
        return false;
      }
    }
    return true;
  }

  // ----- coverage integrity -----

  /** How often a class is accounted for across the three members of coverage. */
  function Accounted(cov: Coverage, c: string): nat {
    multiset(cov.assessedClasses)[c] + (if c in cov.outOfScope then 1 else 0) + (if c in cov.routedElsewhere then 1 else 0)
  }

  /** The three members partition the manifest's classes. */
  ghost predicate Partition(cov: Coverage, classes: Classes) {
    forall c: string :: Accounted(cov, c) == if c in classes then 1 else 0
  }

  predicate Expected(cov: Coverage, classes: Classes, id: string) {
    exists k :: 0 <= k < |cov.assessedClasses| && cov.assessedClasses[k] in classes && id in classes[cov.assessedClasses[k]]
  }

  predicate HasRow(rows: seq<Row>, id: string) {
    exists i :: 0 <= i < |rows| && rows[i].attackId == id
  }

  function RowIds(rows: seq<Row>): seq<string> {
    seq(|rows|, i requires 0 <= i < |rows| => rows[i].attackId)
  }

  /** The rows are exactly the attacks of the assessed classes. */
  ghost predicate RowsAsExpected(p: Predicate, cov: Coverage, classes: Classes) {
    forall id: string :: HasRow(p.rows, id) <==> Expected(cov, classes, id)
  }

  predicate RowUnknown(p: Predicate, classes: Classes) {
    exists i :: 0 <= i < |p.rows| && !Declared(classes, p.rows[i].attackId)
  }

  /** Step 11. */
  ghost function IntegrityCodes(p: Predicate, cov: Coverage, classes: Classes, acc: set<Code>): set<Code> {
    With(With(With(acc,
      !Partition(cov, classes) || !RowsAsExpected(p, cov, classes), CoverageIncomplete),
      !Distinct(RowIds(p.rows)), StatementMalformed),
      RowUnknown(p, classes), RowAttackUnknown)
  }

  /** Reading a Go map of counters. */
  function At(acct: map<string, nat>, c: string): nat {
    if c in acct then acct[c] else 0
  }

  function Bump(acct: map<string, nat>, c: string): map<string, nat> {
    acct[c := At(acct, c) + 1]
  }

  function One(b: bool): nat {
    if b then 1 else 0
  }

  /** The three loops that fill classAcct. */
  method AccountClasses(cov: Coverage) returns (acct: map<string, nat>)
    ensures forall c: string :: At(acct, c) == Accounted(cov, c)
    ensures forall c :: c in acct ==> acct[c] > 0
  {
    acct := map[];
    for i := 0 to |cov.assessedClasses|
      invariant forall c: string :: At(acct, c) == multiset(cov.assessedClasses[..i])[c]
      invariant forall c :: c in acct ==> acct[c] > 0
    {
      assert cov.assessedClasses[..i + 1] == cov.assessedClasses[..i] + [cov.assessedClasses[i]];
      acct := Bump(acct, cov.assessedClasses[i]);
    }
    assert cov.assessedClasses[..|cov.assessedClasses|] == cov.assessedClasses;
    acct := BumpAll(acct, cov.outOfScope.Keys);
    acct := BumpAll(acct, cov.routedElsewhere.Keys);
  }

  method BumpAll(before: map<string, nat>, names: set<string>) returns (acct: map<string, nat>)
    requires forall c :: c in before ==> before[c] > 0
    ensures forall c: string :: At(acct, c) == At(before, c) + One(c in names)
    ensures forall c :: c in acct ==> acct[c] > 0
  {
    var left := names;
    acct := before;
    while left != {}
      invariant left <= names
      invariant forall c: string :: At(acct, c) == At(before, c) + One(c in names - left)
      invariant forall c :: c in acct ==> acct[c] > 0
      decreases |left|
    {
      var c :| c in left;
      acct, left := Bump(acct, c), left - {c};
    }
  }

  method CheckPartition(cov: Coverage, classes: Classes) returns (ok: bool)
    ensures ok <==> Partition(cov, classes)
  {
    hide Accounted;
    var acct := AccountClasses(cov);
    var named, left := acct.Keys, classes.Keys;
    ok := true;
    while named != {}
      invariant named <= acct.Keys
      invariant ok <==> forall c :: c in acct && c !in named ==> acct[c] == 1 && c in classes
      decreases |named|
    {
      var c :| c in named;
      named := named - {c};
      if acct[c] != 1 || c !in classes {
        ok := false;
      }
    }
    ghost var namedOk := ok;
    while left != {}
      invariant left <= classes.Keys
      invariant ok <==> namedOk && forall c :: c in classes && c !in left ==> At(acct, c) == 1
      decreases |left|
    {
      var c :| c in left;
      left := left - {c};
      if At(acct, c) != 1 {
        ok := false;
      }
    }
    PartitionByAccounts(acct, cov, classes);
  }

  lemma PartitionByAccounts(acct: map<string, nat>, cov: Coverage, classes: Classes)
    requires forall c: string :: At(acct, c) == Accounted(cov, c)
    requires forall c :: c in acct ==> acct[c] > 0
    ensures Partition(cov, classes) <==> (forall c :: c in acct ==> acct[c] == 1 && c in classes)
                                         && (forall c :: c in classes ==> At(acct, c) == 1)
  {
    hide Accounted;
    if Partition(cov, classes) {
      forall c | c in acct ensures acct[c] == 1 && c in classes {
        assert At(acct, c) == Accounted(cov, c);
      }
      forall c | c in classes ensures At(acct, c) == 1 {
        assert At(acct, c) == Accounted(cov, c);
      }
    }
  }

  /** The attacks of the assessed classes. */
  method ExpectedIds(cov: Coverage, classes: Classes) returns (ids: set<string>)
    ensures forall id :: id in ids <==> Expected(cov, classes, id)
  {
    ids := {};
    for k := 0 to |cov.assessedClasses|
      invariant forall id :: id in ids <==>
        exists j :: 0 <= j < k && cov.assessedClasses[j] in classes && id in classes[cov.assessedClasses[j]]
    {
      var c := cov.assessedClasses[k];
      if c in classes {
        ids := ids + StringSet(classes[c]);
      }
    }
  }

  method InManifest(classes: Classes) returns (ids: set<string>)
    ensures forall id :: id in ids <==> Declared(classes, id)
  {
    var left := classes.Keys;
    ids := {};
    while left != {}
      invariant left <= classes.Keys
      invariant forall id :: id in ids <==> exists c :: c in classes && c !in left && id in classes[c]
      decreases |left|
    {
      var c :| c in left;
      left, ids := left - {c}, ids + StringSet(classes[c]);
    }
  }

  method CheckIntegrity(p: Predicate, cov: Coverage, classes: Classes, before: CodeList) returns (codes: CodeList)
    ensures CodeSet(codes) == IntegrityCodes(p, cov, classes, CodeSet(before))
  {
    hide CodeSet, Partition, Expected, Declared;
    codes := before;
    var inManifest := InManifest(classes);
    var partition := CheckPartition(cov, classes);
    if !partition {
      codes := AppendCode(codes, CoverageIncomplete);
    }
    var expected := ExpectedIds(cov, classes);
    var rowIds, walked := WalkRows(p, classes, inManifest, codes);
    codes := walked;
    ExpectedSets(p, cov, classes, rowIds, expected);
    if !SameStringSet(rowIds, expected) {
      codes := AppendCode(codes, CoverageIncomplete);
    }
  }

  lemma ExpectedSets(p: Predicate, cov: Coverage, classes: Classes, rowIds: set<string>, expected: set<string>)
    requires forall id :: id in rowIds <==> HasRow(p.rows, id)
    requires forall id :: id in expected <==> Expected(cov, classes, id)
    ensures rowIds == expected <==> RowsAsExpected(p, cov, classes)
  {
  }

  method WalkRows(p: Predicate, classes: Classes, inManifest: set<string>, before: CodeList)
    returns (rowIds: set<string>, codes: CodeList)
    requires forall id :: id in inManifest <==> Declared(classes, id)
    ensures forall id :: id in rowIds <==> HasRow(p.rows, id)
    ensures CodeSet(codes) == With(With(CodeSet(before), !Distinct(RowIds(p.rows)), StatementMalformed),
                                   RowUnknown(p, classes), RowAttackUnknown)
  {
    hide CodeSet, Declared;
    rowIds, codes := {}, before;
    for i := 0 to |p.rows|
      invariant forall id :: id in rowIds <==> HasRow(p.rows[..i], id)
      invariant CodeSet(codes) == With(With(CodeSet(before), !Distinct(RowIds(p.rows[..i])), StatementMalformed),
        exists k :: 0 <= k < i && !Declared(classes, p.rows[k].attackId), RowAttackUnknown)
    {
      var id := p.rows[i].attackId;
      NextRow(p.rows, i);
      if id in rowIds {
        codes := AppendCode(codes, StatementMalformed);
      }
      rowIds := rowIds + {id};
      if id !in inManifest {
        codes := AppendCode(codes, RowAttackUnknown);
      }
    }
    assert p.rows[..|p.rows|] == p.rows;
  }

  lemma NextRow(rows: seq<Row>, i: nat)
    requires i < |rows|
    ensures forall id :: HasRow(rows[..i + 1], id) <==> HasRow(rows[..i], id) || id == rows[i].attackId
    ensures Distinct(RowIds(rows[..i + 1])) <==> Distinct(RowIds(rows[..i])) && !HasRow(rows[..i], rows[i].attackId)
  {
    var a, b := rows[..i], rows[..i + 1];
    assert RowIds(b) == RowIds(a) + [rows[i].attackId];
    forall id ensures HasRow(b, id) <==> HasRow(a, id) || id == rows[i].attackId {
      assert b[i].attackId == rows[i].attackId;
      if HasRow(a, id) {
        var k :| 0 <= k < |a| && a[k].attackId == id;
        assert b[k] == a[k];
      }
    }
    DistinctJoin(RowIds(a), [rows[i].attackId]);
    if HasRow(a, rows[i].attackId) {
      var k :| 0 <= k < |a| && a[k].attackId == rows[i].attackId;
      assert RowIds(a)[k] in [rows[i].attackId];
    }
  }

  // ----- rows, binding inputs, issuedAt -----

  predicate CleanLabel(v: Vocabulary, observed: string) {
    observed in v.labels && observed !in v.caught
  }

  predicate CaughtLabel(v: Vocabulary, observed: string) {
    observed in v.caught
  }

  predicate LayerMissing(p: Predicate) {
    exists i :: 0 <= i < |p.rows| && p.rows[i].actualLayer.None?
  }

  /** A clean row whose layer is not "none". */
  predicate CleanRowWithLayer(v: Vocabulary, row: Row) {
    row.actualLayer.Some? && CleanLabel(v, row.containmentObserved) && row.actualLayer.value != LAYER_NONE
  }

  predicate SomeCleanRowWithLayer(v: Vocabulary, rows: seq<Row>) {
    exists i :: 0 <= i < |rows| && CleanRowWithLayer(v, rows[i])
  }

  predicate IsVocabularyCode(c: Code) {
    c == VocabularyMissing || c == VocabularyNotCanonical || c == VocabularyCaughtNotSubset || c == VocabularyDigestMismatch
  }

  predicate AnyVocabularyCode(acc: set<Code>) {
    exists c :: c in acc && IsVocabularyCode(c)
  }

  method ContainsVocabularyCodes(codes: CodeList) returns (r: bool)
    ensures r == AnyVocabularyCode(CodeSet(codes))
  {
    for i := 0 to |codes|
      invariant forall k :: 0 <= k < i ==> !IsVocabularyCode(codes[k])
    {
      if IsVocabularyCode(codes[i]) {
        assert codes[i] in CodeSet(codes);
        return true;
      }
    }
    return false;
  }

  function VocabularyOf(env: Option<Environment>): Option<Vocabulary> {
    if env.Some? then env.value.vocabulary else None
  }

  /** Step 10; the label test is made only under a vocabulary that raised nothing. */
  function LayerCodes(p: Predicate, acc: set<Code>): set<Code> {
    With(With(acc, LayerMissing(p), MissingActualLayer),
      VocabularyOf(p.env).Some? && !AnyVocabularyCode(acc) && SomeCleanRowWithLayer(VocabularyOf(p.env).value, p.rows),
      CleanRowLayerNotNone)
  }

  method CheckLayers(p: Predicate, before: CodeList) returns (codes: CodeList)
    ensures CodeSet(codes) == LayerCodes(p, CodeSet(before))
  {
    hide CodeSet, CleanLabel, AnyVocabularyCode;
    codes := before;
    var faulted := ContainsVocabularyCodes(codes);
    var voc := VocabularyOf(p.env);
    var vocabOk := voc.Some? && !faulted;
    for i := 0 to |p.rows|
      invariant CodeSet(codes) == With(With(CodeSet(before),
        exists k :: 0 <= k < i && p.rows[k].actualLayer.None?, MissingActualLayer),
        vocabOk && exists k :: 0 <= k < i && CleanRowWithLayer(voc.value, p.rows[k]), CleanRowLayerNotNone)
    {
      var row := p.rows[i];
      if row.actualLayer.None? {
        codes := AppendCode(codes, MissingActualLayer);
      } else if vocabOk && CleanLabel(voc.value, row.containmentObserved) && row.actualLayer.value != LAYER_NONE {
        codes := AppendCode(codes, CleanRowLayerNotNone);
      }
    }
  }

  function CorpusSha256(c: Option<Corpus>): string {
    if c.Some? then Sha256Member(c.value.digest) else ""
  }

  function PostureSha256(n: Option<NetworkPosture>): string {
    if n.Some? then Sha256Member(n.value.digest) else ""
  }

  predicate DigestBad(d: string) {
    d != "" && !IsLowerHex64(d)
  }

  predicate EnvironmentDigestBad(e: Environment) {
    DigestBad(RefSha256(e.catchPolicy)) || DigestBad(CorpusSha256(e.corpus))
    || DigestBad(PostureSha256(e.networkPosture)) || DigestBad(RefSha256(e.substrate))
  }

  predicate EntropyAbsent(env: Option<Environment>) {
    env.None? || env.value.runEntropy.None?
  }

  /** Step 12, on a statement with a substrate row. */
  function BindingInputCodes(s: Statement, acc: set<Code>): set<Code> {
    var env := s.predicate_.env;
    With(With(With(acc,
      EntropyAbsent(env), RunEntropyMissing),
      s.subject != [] && "sha256" !in s.subject[0], SubjectSha256Missing),
      || (!EntropyAbsent(env) && !IsLowerHex64(RefSha256(env.value.runEntropy)))
      || (s.subject != [] && "sha256" in s.subject[0] && !IsLowerHex64(s.subject[0]["sha256"]))
      || (env.Some? && EnvironmentDigestBad(env.value)), DigestNotCanonical)
  }

  method CheckBindingInputs(s: Statement, before: CodeList) returns (codes: CodeList)
    ensures CodeSet(codes) == BindingInputCodes(s, CodeSet(before))
  {
    hide CodeSet, IsLowerHex64, EnvironmentDigestBad, RefSha256;
    var env := s.predicate_.env;
    codes := before;
    if EntropyAbsent(env) {
      codes := AppendCode(codes, RunEntropyMissing);
    } else if !IsLowerHex64(RefSha256(env.value.runEntropy)) {
      codes := AppendCode(codes, DigestNotCanonical);
    }
    if |s.subject| >= 1 {
      if "sha256" !in s.subject[0] {
        codes := AppendCode(codes, SubjectSha256Missing);
      } else if !IsLowerHex64(s.subject[0]["sha256"]) {
        codes := AppendCode(codes, DigestNotCanonical);
      }
    }
    if env.Some? {
      var bad := AnyDigestBad(env.value);
      if bad {
        codes := AppendCode(codes, DigestNotCanonical);
      }
    }
  }

  /** The loop over the four digests read verbatim. */
  method AnyDigestBad(e: Environment) returns (bad: bool)
    ensures bad == EnvironmentDigestBad(e)
  {
    hide IsLowerHex64, RefSha256;
    var digests := [RefSha256(e.catchPolicy), CorpusSha256(e.corpus), PostureSha256(e.networkPosture), RefSha256(e.substrate)];
    bad := false;
    for i := 0 to 4
      invariant bad <==> exists k :: 0 <= k < i && DigestBad(digests[k])
    {
      if digests[i] != "" {
        var hex := ScanLowerHex64(digests[i]);
        if !hex {
          bad := true;
        }
      }
    }
    assert bad <==> DigestBad(digests[0]) || DigestBad(digests[1]) || DigestBad(digests[2]) || DigestBad(digests[3]);
  }

  method HasSubstrate(p: Predicate) returns (r: bool)
    ensures r == HasSubstrateRows(p)
  {
    for i := 0 to |p.rows|
      invariant forall k :: 0 <= k < i ==> !IsSubstrate(p.rows[k])
    {
      if IsSubstrate(p.rows[i]) {
        return true;
      }
    }
    return false;
  }

  // ----- the gate -----

  /** Steps 6 and 7. */
  function CommittedCodes(env: Option<Environment>, acc: set<Code>): set<Code> {
    if env.None? then acc
    else
      var a := if env.value.vocabulary.Some? then VocabularyCodes(env.value.vocabulary.value, acc) else acc;
      if env.value.corpus.Some? then CorpusCodes(env.value.corpus.value, a) else a
  }

  /** Steps 8, 9 and 9b. */
  function PresenceCodes(s: Statement, acc: set<Code>): set<Code> {
    var p := s.predicate_;
    With(With(With(acc, !p.coveragePresent, CoverageMissing), !p.rowsPresent, StatementMalformed),
      |s.subject| != 1, SubjectCardinality)
  }

  predicate IntegrityChecked(p: Predicate) {
    p.env.Some? && p.env.value.corpus.Some? && p.env.value.corpus.value.classes.Some? && p.coverage.Some?
  }

  /** Steps 11 to 13. */
  ghost function ContentCodes(s: Statement, acc: set<Code>): set<Code> {
    var p := s.predicate_;
    var a := if IntegrityChecked(p)
             then IntegrityCodes(p, p.coverage.value, p.env.value.corpus.value.classes.value, acc) else acc;
    var b := if HasSubstrateRows(p) then BindingInputCodes(s, a) else a;
    With(With(b, !p.issuedAtPresent, IssuedAtMissing),
      p.issuedAtPresent && PARSE_TIMESTAMP(p.issuedAt).None?, IssuedAtMalformed)
  }

  /** The codes of GATE 0. */
  ghost function Gate0Codes(s: Statement): set<Code> {
    ContentCodes(s, LayerCodes(s.predicate_, PresenceCodes(s,
      CommittedCodes(s.predicate_.env, EnvironmentCodes(s.predicate_.env, EnvelopeCodes(s))))))
  }

  /** Gate0. */
  method RunGate0(s: Statement) returns (codes: CodeList)
    ensures CodeSet(codes) == Gate0Codes(s)
    ensures codes == [] <==> Gate0Codes(s) == {}
  {
    hide CodeSet, EnvelopeCodes, EnvironmentCodes, VocabularyCodes, CorpusCodes, LayerCodes, IntegrityCodes,
      BindingInputCodes, HasSubstrateRows;
    var p := s.predicate_;
    codes := Envelope(s);
    codes := EnvironmentMembers(p.env, codes);
    if p.env.Some? && p.env.value.vocabulary.Some? {
      codes := CheckVocabulary(p.env.value.vocabulary.value, codes);
    }
    if p.env.Some? && p.env.value.corpus.Some? {
      codes := CheckCorpus(p.env.value.corpus.value, codes);
    }
    assert CodeSet(codes) == CommittedCodes(p.env, EnvironmentCodes(p.env, EnvelopeCodes(s)));
    if !p.coveragePresent {
      codes := AppendCode(codes, CoverageMissing);
    }
    if !p.rowsPresent {
      codes := AppendCode(codes, StatementMalformed);
    }
    if |s.subject| != 1 {
      codes := AppendCode(codes, SubjectCardinality);
    }
    ghost var present := PresenceCodes(s, CommittedCodes(p.env, EnvironmentCodes(p.env, EnvelopeCodes(s))));
    assert CodeSet(codes) == present;
    codes := CheckLayers(p, codes);
    if IntegrityChecked(p) {
      codes := CheckIntegrity(p, p.coverage.value, p.env.value.corpus.value.classes.value, codes);
    }
    var substrate := HasSubstrate(p);
    if substrate {
      codes := CheckBindingInputs(s, codes);
    }
    if !p.issuedAtPresent {
      codes := AppendCode(codes, IssuedAtMissing);
    } else if PARSE_TIMESTAMP(p.issuedAt).None? {
      codes := AppendCode(codes, IssuedAtMalformed);
    }
  }
}
