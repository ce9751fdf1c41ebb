/** What acceptance means: the conditions under which the two gates raise no code,
    written out. */
module Accepted {
  import opened Core
  import opened Order
  import opened Sorting
  import opened Json
  import opened Codes
  import opened Statements
  import opened CorpusManifest
  import opened Gate0
  import opened Payloads
  import opened Rows
  import opened RecordSet
  import opened Commitments
  import opened Seals
  import opened Gate1
  import opened Recompute

  // ----- GATE 0 -----

  predicate VocabularyOk(v: Vocabulary) {
    && v.labelsPresent && v.caughtPresent
    && StrictlyAscending(v.labels) && StrictlyAscending(v.caught) && AllBmp(v.labels) && AllBmp(v.caught)
    && Subset(v.caught, v.labels)
    && Sha256Member(v.digest) == SHA256Hex(CanonicalVocabulary(v.labels, v.caught))
  }

  predicate CorpusOk(c: Corpus) {
    && c.manifestRaw != [] && Canonicalize(c.manifestRaw).Ok?
    && Sha256Member(c.digest) == SHA256Hex(Canonicalize(c.manifestRaw).value)
    && EachOnce(ClassesOf(c)) && !NoAttacks(ClassesOf(c)) && PayloadsOk(c.payloads, ClassesOf(c))
  }

  predicate EnvironmentOk(e: Environment) {
    && e.substrate.Some? && e.catchPolicy.Some? && e.networkPosture.Some?
    && e.networkPosture.value.posture in EGRESS_POSTURES
    && e.vocabulary.Some? && VocabularyOk(e.vocabulary.value)
    && e.corpus.Some? && CorpusOk(e.corpus.value)
  }

  predicate LayersOk(v: Vocabulary, rows: seq<Row>) {
    forall i :: 0 <= i < |rows| ==> rows[i].actualLayer.Some? && !CleanRowWithLayer(v, rows[i])
  }

  /** The rows are the assessed attacks, each once. */
  ghost predicate IntegrityOk(p: Predicate, cov: Coverage, classes: Classes) {
    Partition(cov, classes) && RowsAsExpected(p, cov, classes) && Distinct(RowIds(p.rows)) && !RowUnknown(p, classes)
  }

  predicate BindingInputsOk(s: Statement)
    requires s.predicate_.env.Some? && |s.subject| == 1
  {
    var e := s.predicate_.env.value;
    && e.runEntropy.Some? && IsLowerHex64(RefSha256(e.runEntropy))
    && "sha256" in s.subject[0] && IsLowerHex64(s.subject[0]["sha256"])
    && !EnvironmentDigestBad(e)
  }

  predicate EnvelopeOk(s: Statement) {
    var p := s.predicate_;
    && s.type_ == STATEMENT_TYPE && s.predicateType == PREDICATE_TYPE && s.parseCodes == []
    && !p.snakeCaseSpelling && p.resultPresent && IsResultToken(p.result)
    && p.coveragePresent && p.rowsPresent && |s.subject| == 1
    && p.issuedAtPresent && PARSE_TIMESTAMP(p.issuedAt).Some?
  }

  ghost predicate Gate0Ok(s: Statement) {
    var p := s.predicate_;
    && EnvelopeOk(s)
    && p.env.Some? && EnvironmentOk(p.env.value)
    && LayersOk(p.env.value.vocabulary.value, p.rows)
    && (p.env.value.corpus.value.classes.Some? && p.coverage.Some? ==>
          IntegrityOk(p, p.coverage.value, p.env.value.corpus.value.classes.value))
    && (HasSubstrateRows(p) ==> BindingInputsOk(s))
  }

  lemma VocabularyExactly(v: Vocabulary, acc: set<Code>)
    ensures VocabularyCodes(v, acc) == {} <==> acc == {} && VocabularyOk(v)
  {
    hide StrictlyAscending, AllBmp, Subset, CanonicalVocabulary, SHA256Hex;
  }

  lemma CorpusExactly(c: Corpus, acc: set<Code>)
    ensures CorpusCodes(c, acc) == {} <==> acc == {} && CorpusOk(c)
  {
    hide Canonicalize, EachOnce, NoAttacks, PayloadsOk, SHA256Hex;
  }

  lemma EnvironmentExactly(env: Option<Environment>, acc: set<Code>)
    ensures CommittedCodes(env, EnvironmentCodes(env, acc)) == {} <==> acc == {} && env.Some? && EnvironmentOk(env.value)
  {
    hide VocabularyCodes, CorpusCodes, VocabularyOk, CorpusOk;
    if env.Some? {
      var a := EnvironmentCodes(env, acc);
      var b := if env.value.vocabulary.Some? then VocabularyCodes(env.value.vocabulary.value, a) else a;
      if env.value.vocabulary.Some? {
        VocabularyExactly(env.value.vocabulary.value, a);
      }
      if env.value.corpus.Some? {
        CorpusExactly(env.value.corpus.value, b);
      }
    }
  }

  lemma LayersExactly(p: Predicate, acc: set<Code>)
    requires p.env.Some? && p.env.value.vocabulary.Some?
    ensures LayerCodes(p, acc) == {} <==> acc == {} && LayersOk(p.env.value.vocabulary.value, p.rows)
  {
    hide CleanRowWithLayer;
  }

  lemma InputsExactly(s: Statement, acc: set<Code>)
    requires s.predicate_.env.Some? && |s.subject| == 1
    ensures BindingInputCodes(s, acc) == {} <==> acc == {} && BindingInputsOk(s)
  {
    hide IsLowerHex64, EnvironmentDigestBad, RefSha256;
  }

  lemma EnvelopeExactly(s: Statement, acc: set<Code>)
    ensures (EnvelopeCodes(s) == {} && PresenceCodes(s, acc) == {} && s.predicate_.issuedAtPresent
             && PARSE_TIMESTAMP(s.predicate_.issuedAt).Some?) <==> (acc == {} && EnvelopeOk(s))
  {
    hide IsResultToken;
  }

  /** GATE 0 accepts exactly these statements. */
  lemma Gate0Exactly(s: Statement)
    ensures Gate0Codes(s) == {} <==> Gate0Ok(s)
  {
    hide EnvelopeCodes, EnvironmentCodes, CommittedCodes, LayerCodes, PresenceCodes, IntegrityCodes, BindingInputCodes,
      EnvelopeOk, EnvironmentOk, LayersOk, BindingInputsOk, HasSubstrateRows, Partition, RowsAsExpected, Distinct, RowUnknown;
    var p := s.predicate_;
    var a := EnvelopeCodes(s);
    var b := CommittedCodes(p.env, EnvironmentCodes(p.env, a));
    var c := PresenceCodes(s, b);
    EnvironmentExactly(p.env, a);
    EnvelopeExactly(s, b);
    EnvelopeExactly(s, {});
    PresenceKeeps(s, b);
    ContentKeeps(s, LayerCodes(p, c));
    LayerKeeps(p, c);
    if b == {} {
      EnvironmentMembersThere(p.env.value);
      LayersExactly(p, c);
      if c == {} && LayerCodes(p, c) == {} {
        ContentExactly(s);
      }
    }
  }

  lemma PresenceKeeps(s: Statement, acc: set<Code>)
    ensures PresenceCodes(s, acc) == {} ==> acc == {} && |s.subject| == 1
  {
  }

  lemma LayerKeeps(p: Predicate, acc: set<Code>)
    ensures LayerCodes(p, acc) == {} ==> acc == {}
  {
    hide LayerMissing, SomeCleanRowWithLayer, AnyVocabularyCode;
  }

  lemma ContentKeeps(s: Statement, acc: set<Code>)
    ensures ContentCodes(s, acc) == {} ==> acc == {} && s.predicate_.issuedAtPresent && PARSE_TIMESTAMP(s.predicate_.issuedAt).Some?
  {
    hide Partition, RowsAsExpected, Distinct, RowUnknown, HasSubstrateRows, EntropyAbsent, EnvironmentDigestBad, RefSha256, IsLowerHex64;
  }

  lemma EnvironmentMembersThere(e: Environment)
    requires EnvironmentOk(e)
    ensures e.vocabulary.Some? && e.corpus.Some?
  {
  }

  lemma ContentExactly(s: Statement)
    requires s.predicate_.env.Some? && s.predicate_.env.value.corpus.Some? && |s.subject| == 1
    ensures
      var p := s.predicate_;
      ContentCodes(s, {}) == {} <==>
        && p.issuedAtPresent && PARSE_TIMESTAMP(p.issuedAt).Some?
        && (p.env.value.corpus.value.classes.Some? && p.coverage.Some? ==>
              IntegrityOk(p, p.coverage.value, p.env.value.corpus.value.classes.value))
        && (HasSubstrateRows(p) ==> BindingInputsOk(s))
  {
    hide Partition, RowsAsExpected, Distinct, RowUnknown, HasSubstrateRows, BindingInputCodes, BindingInputsOk;
    var p := s.predicate_;
    var a := if IntegrityChecked(p) then IntegrityCodes(p, p.coverage.value, p.env.value.corpus.value.classes.value, {}) else {};
    InputsExactly(s, a);
  }

  /** On a parsed statement GATE 0 leaves a coverage, a manifest with its classes, and
      everything GATE 1 reads. */
  lemma Gate0Leaves(s: Statement)
    requires WellParsed(s.predicate_, s.parseCodes) && Gate0Ok(s)
    ensures GateReady(s.predicate_) && s.predicate_.coverage.Some? && s.predicate_.env.value.corpus.value.classes.Some?
    ensures IntegrityOk(s.predicate_, s.predicate_.coverage.value, ClassesOf(s.predicate_.env.value.corpus.value))
  {
    hide VocabularyOk, RefsWellParsed, LayersOk, BindingInputsOk, EachOnce, PayloadsOk, Canonicalize, Partition,
      RowsAsExpected, Distinct, RowUnknown, SHA256Hex, HasSubstrateRows;
  }

  // ----- GATE 1 -----

  predicate RecordSetOk(p: Predicate) {
    if NoRecords(p) then !p.batchRootPresent
    else
      !SomeUnsigned(p.records) && !SomeUndecodable(p.records) && !SomeDuplicate(p.records)
      && p.batchRootPresent && p.batchRoot == RootHex(p.records)
  }

  /** A valid substrate row: classified, resolving only bound records, with a covering
      record of every required kind, and no method above its covering records'. */
  predicate RowValid(p: Predicate, row: Row, ctx: Context)
    requires Readable(p)
  {
    && !FailsClosed(Voc(p), row) && row.refsPresent && !row.refsErr && row.refs != [] && InRange(p, row.refs)
    && (forall i :: 0 <= i < |row.refs| ==> Bound(p.records[row.refs[i]], ctx.binding))
    && KindsMet(p, row, Postures(p, row), ctx.issuedAt)
    && !CapExceeded(p, row, Postures(p, row), ctx.issuedAt)
  }

  /** The posture claims of the arming records the row resolves. */
  function Postures(p: Predicate, row: Row): seq<string>
    requires InRange(p, row.refs)
  {
    UniqueKeepsRange(p, row.refs);
    ArmingPostures(p, Unique(row.refs))
  }

  lemma UniqueKeepsRange(p: Predicate, refs: seq<int>)
    requires InRange(p, refs)
    ensures InRange(p, Unique(refs))
  {
    var u := Unique(refs);
    forall i | 0 <= i < |u| ensures 0 <= u[i] < |p.records| {
      assert u[i] in refs;
    }
  }

  predicate KindsMet(p: Predicate, row: Row, postures: seq<string>, issuedAt: int)
    requires Readable(p) && InRange(p, row.refs)
  {
    var reqs := Requirements(Voc(p), row);
    forall k :: 0 <= k < |reqs| ==> Met(p, row.refs, reqs[k].kind, postures, issuedAt)
  }

  lemma MetInUnique(p: Predicate, refs: seq<int>, kind: string, postures: seq<string>, issuedAt: int)
    requires InRange(p, refs) && InRange(p, Unique(refs))
    ensures Met(p, Unique(refs), kind, postures, issuedAt) <==> Met(p, refs, kind, postures, issuedAt)
  {
    hide RecordKind, Covers;
    var u := Unique(refs);
    if Met(p, u, kind, postures, issuedAt) {
      var k :| 0 <= k < |u| && RecordKind(p, u[k]) == kind && Covers(p, u[k], postures, issuedAt);
      assert u[k] in refs;
      var j :| 0 <= j < |refs| && refs[j] == u[k];
    }
    if Met(p, refs, kind, postures, issuedAt) {
      var k :| 0 <= k < |refs| && RecordKind(p, refs[k]) == kind && Covers(p, refs[k], postures, issuedAt);
      assert refs[k] in u;
      var j :| 0 <= j < |u| && u[j] == refs[k];
    }
  }

  lemma ClassExactly(p: Predicate, row: Row, postures: seq<string>, issuedAt: int)
    requires Readable(p) && InRange(p, row.refs) && InRange(p, Unique(row.refs))
    ensures ClassCodes(p, row, Unique(row.refs), postures, issuedAt) == {} <==> KindsMet(p, row, postures, issuedAt)
  {
    hide Met, UnmetCode, Requirements;
    var reqs := Requirements(Voc(p), row);
    MetInUnique(p, row.refs, reqs[0].kind, postures, issuedAt);
    if |reqs| == 2 {
      MetInUnique(p, row.refs, reqs[1].kind, postures, issuedAt);
    }
  }

  lemma BoundInUnique(p: Predicate, refs: seq<int>, binding: string)
    requires InRange(p, refs) && InRange(p, Unique(refs))
    ensures PayloadFaults(p, Unique(refs), binding) == {} <==>
              forall i :: 0 <= i < |refs| ==> Bound(p.records[refs[i]], binding)
  {
    hide Bound, PayloadFaults;
    var u := Unique(refs);
    NoFaults(p, u, binding);
    if forall i :: 0 <= i < |u| ==> Bound(p.records[u[i]], binding) {
      forall i | 0 <= i < |refs| ensures Bound(p.records[refs[i]], binding) {
        assert refs[i] in u;
        var j :| 0 <= j < |u| && u[j] == refs[i];
      }
    }
    if forall i :: 0 <= i < |refs| ==> Bound(p.records[refs[i]], binding) {
      forall i | 0 <= i < |u| ensures Bound(p.records[u[i]], binding) {
        assert u[i] in refs;
        var j :| 0 <= j < |refs| && refs[j] == u[i];
      }
    }
  }

  /** A row raises no code exactly when it is valid. */
  lemma RowExactly(p: Predicate, row: Row, ctx: Context)
    requires Readable(p) && RefsWellParsed(row)
    ensures RowOk(p, row, ctx) <==> RowValid(p, row, ctx)
  {
    hide FailsClosed, Unique, PayloadFaults, ArmingPostures, ClassCodes, KindsMet, CapExceeded, Bound;
    if ShapeCode(p, row).None? {
      UniqueInRange(p, row);
      BoundInUnique(p, row.refs, ctx.binding);
      ClassExactly(p, row, Postures(p, row), ctx.issuedAt);
    }
  }

  predicate AnyBasisOk(p: Predicate)
    requires Readable(p)
  {
    && (NoRecords(p) || (!CleanContradicted(p) && !Orphaned(p)))
    && forall i :: 0 <= i < |p.rows| ==> AttributionFault(p, p.rows[i]).None?
  }

  ghost predicate SubstrateOk(p: Predicate, ctx: Context)
    requires Readable(p)
  {
    NoRecords(p)
    || (!SomeWrongSet(p, ctx.binding) && SealPresent(p, ctx)
        && (forall i :: 0 <= i < |p.records| ==> !Defective(p, i, ctx))
        && !SealNamesUncaught(p, ctx.binding) && !AssessedExceeds(p, ctx.binding))
  }

  ghost predicate Gate1Ok(s: Statement)
    requires GateReady(s.predicate_)
  {
    var p := s.predicate_;
    && RecordSetOk(p) && (p.records == [] || !SomeDangling(p)) && AnyBasisOk(p)
    && (HasSubstrateRows(p) ==>
          && p.recordsPresent && PARSE_TIMESTAMP(p.issuedAt).Some?
          && (forall i :: 0 <= i < |p.rows| && IsSubstrate(p.rows[i]) ==> RowValid(p, p.rows[i], ContextOf(s)))
          && SubstrateOk(p, ContextOf(s)))
  }

  lemma RecordSetExactly(p: Predicate)
    ensures RecordSetCodes(p) == {} <==> RecordSetOk(p)
  {
    hide SomeUnsigned, SomeUndecodable, SomeDuplicate, RootHex;
  }

  lemma AnyBasisExactly(p: Predicate)
    requires Readable(p)
    ensures AnyBasisCodes(p) == {} <==> AnyBasisOk(p)
  {
    hide CleanContradicted, Orphaned, AttributionCodes, AttributionFault;
    NoAttributionFault(p, p.rows);
  }

  lemma SubstrateExactly(p: Predicate, ctx: Context)
    requires Readable(p)
    ensures SubstrateCodes(p, ctx) == {} <==> SubstrateOk(p, ctx)
  {
    hide SomeWrongSet, SealPresent, SealNamesUncaught, AssessedExceeds, CarriedCodes, Defective;
    NoneDefective(p, |p.records|, ctx);
  }

  lemma RowsExactly(p: Predicate, ctx: Context)
    requires GateReady(p)
    ensures SubstrateRowCodes(p, |p.rows|, ctx) == {} <==>
              forall i :: 0 <= i < |p.rows| && IsSubstrate(p.rows[i]) ==> RowValid(p, p.rows[i], ctx)
  {
    hide SubstrateRowCodes, RowValid, RowOk, Readable, RefsWellParsed, IsSubstrate;
    SubstrateRowsOk(p, |p.rows|, ctx);
    forall i | 0 <= i < |p.rows| ensures RowOk(p, p.rows[i], ctx) <==> RowValid(p, p.rows[i], ctx) {
      RowExactly(p, p.rows[i], ctx);
    }
  }

  /** GATE 1 accepts exactly these statements. */
  lemma Gate1Exactly(s: Statement)
    requires GateReady(s.predicate_)
    ensures Gate1Codes(s) == {} <==> Gate1Ok(s)
  {
    hide RecordSetCodes, RecordSetOk, SomeDangling, AnyBasisCodes, AnyBasisOk, SubstrateRowCodes, SubstrateCodes, SubstrateOk,
      RowValid, HasSubstrateRows, StatementBinding, Readable, RefsWellParsed, IsSubstrate;
    var p := s.predicate_;
    RecordSetExactly(p);
    AnyBasisExactly(p);
    if HasSubstrateRows(p) && p.recordsPresent && PARSE_TIMESTAMP(p.issuedAt).Some? {
      RowsExactly(p, ContextOf(s));
      SubstrateExactly(p, ContextOf(s));
    }
  }

  // ----- the whole precondition -----

  /** What Evaluate goes through, in order. */
  datatype Stage = Parsing | GateZero | GateOne | Recomputation

  ghost predicate Passes(s: Statement, stage: Stage) {
    match stage
    case Parsing => WellParsed(s.predicate_, s.parseCodes)
    case GateZero => Gate0Ok(s)
    case GateOne => GateReady(s.predicate_) && Gate1Ok(s)
    case Recomputation => Recomputed(s.predicate_) == s.predicate_.result
  }

  /** Evaluate succeeds: the statement passes both gates and carries its recomputed
      result. */
  ghost predicate Accepts(s: Statement) {
    forall stage :: Passes(s, stage)
  }

  /** Whatever a predicate comes to is a result that GATE 0 admits. */
  lemma RecomputedAdmitted(p: Predicate)
    ensures IsResultToken(Recomputed(p))
  {
    hide SomeRow;
  }

  lemma AcceptsMeans(s: Statement)
    ensures Accepts(s) <==> WellParsed(s.predicate_, s.parseCodes) && Gate0Ok(s) && GateReady(s.predicate_)
                            && Gate1Ok(s) && Recomputed(s.predicate_) == s.predicate_.result
  {
    hide WellParsed, Gate0Ok, GateReady, Gate1Ok, Recomputed;
    assert forall stage :: Passes(s, stage) <==> match stage
      case Parsing => WellParsed(s.predicate_, s.parseCodes)
      case GateZero => Gate0Ok(s)
      case GateOne => GateReady(s.predicate_) && Gate1Ok(s)
      case Recomputation => Recomputed(s.predicate_) == s.predicate_.result;
    assert Accepts(s) ==> Passes(s, Parsing) && Passes(s, GateZero) && Passes(s, GateOne) && Passes(s, Recomputation);
  }
}
