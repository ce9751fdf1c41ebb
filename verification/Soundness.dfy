/** What every accepted statement satisfies across the gates: no single loop tests any
    of these facts. */
module Soundness {
  import opened Core
  import opened Order
  import opened Sorting
  import opened Statements
  import opened CorpusManifest
  import opened Gate0
  import opened Payloads
  import opened Rows
  import opened Commitments
  import opened Seals
  import opened Gate1
  import opened Recompute
  import opened Accepted
  import opened Evaluate

  // ----- the two evaluations of a kind predicate -----

  lemma {:induction false} PosturesPinned(p: Predicate, refs: seq<int>)
    requires InRange(p, refs)
    requires forall k :: 0 <= k < |refs| && RecordKind(p, refs[k]) == KIND_ARMING ==>
               ObjString(RecordPayload(p, refs[k]), POSTURE_DIGEST) == Some(PinnedPosture(p))
    ensures forall i :: 0 <= i < |ArmingPostures(p, refs)| ==> ArmingPostures(p, refs)[i] == PinnedPosture(p)
  {
    hide RecordKind, RecordPayload, ObjString, PinnedPosture;
    if refs != [] {
      var init := refs[..|refs| - 1];
      forall k | 0 <= k < |init| && RecordKind(p, init[k]) == KIND_ARMING
        ensures ObjString(RecordPayload(p, init[k]), POSTURE_DIGEST) == Some(PinnedPosture(p))
      {
        assert init[k] == refs[k];
      }
      PosturesPinned(p, init);
      assert refs[|refs| - 1] == refs[|refs| - 1];
    }
  }

  lemma SamePostures(p: Predicate, i: int, postures: seq<string>, issuedAt: int)
    requires 0 <= i < |p.records|
    requires forall k :: 0 <= k < |postures| ==> postures[k] == PinnedPosture(p)
    ensures Covers(p, i, postures, issuedAt) <==> Covers(p, i, [], issuedAt)
  {
    hide InterceptionOk, ArmingOk, DropsWithinBound, AscendingMember, ObjString, ObjBool, RecordPayload, RecordKind,
      RecordMethod, PinnedPosture, DeclaredIds, IsLowerHex64;
  }

  /** A bound record of a covering kind meets its constraints without a row. */
  lemma CarriedCovers(s: Statement, i: int)
    requires Accepts(s) && HasSubstrateRows(s.predicate_) && InRecords(s.predicate_, i)
    requires Bound(s.predicate_.records[i], StatementBinding(s)) && IsCoveringKind(RecordKind(s.predicate_, i))
    ensures Covers(s.predicate_, i, [], IssuedAtInstant(s.predicate_))
  {
    hide Gate0Ok, RecordSetOk, AnyBasisOk, RowValid, WellParsed, Recomputed, Covers, Bound, RecordKind, IsCoveringKind,
      SomeWrongSet, SealPresent, SealNamesUncaught, AssessedExceeds, StatementBinding, Readable, RefsWellParsed, HasSubstrateRows, SomeDangling;
    AcceptsMeans(s);
    assert !Defective(s.predicate_, i, ContextOf(s));
  }

  lemma ArmingPosture(p: Predicate, i: int, issuedAt: int)
    requires 0 <= i < |p.records| && RecordKind(p, i) == KIND_ARMING && Covers(p, i, [], issuedAt)
    ensures ObjString(RecordPayload(p, i), POSTURE_DIGEST) == Some(PinnedPosture(p))
  {
    hide ObjString, RecordPayload, RecordKind, RecordMethod, PinnedPosture, DeclaredIds, ArmedInTime, ChainSyntaxOk, AscendingMember;
    assert KIND_ARMING[0] != KIND_INTERCEPTION[0];
  }

  lemma AcceptedRow(s: Statement, r: nat)
    requires Accepts(s) && r < |s.predicate_.rows| && IsSubstrate(s.predicate_.rows[r])
    ensures GateReady(s.predicate_) && RowValid(s.predicate_, s.predicate_.rows[r], ContextOf(s)) && HasSubstrateRows(s.predicate_)
  {
    hide Gate0Ok, RecordSetOk, AnyBasisOk, RowValid, WellParsed, Recomputed, SubstrateOk, StatementBinding, Readable, RefsWellParsed, SomeDangling;
    AcceptsMeans(s);
  }

  /** Record i is bound and, if its kind can cover, valid under the row's posture claims
      and without any. */
  predicate AgreesAt(p: Predicate, row: Row, ctx: Context, i: int) {
    && InRange(p, row.refs) && InRecords(p, i) && Bound(p.records[i], ctx.binding)
    && (IsCoveringKind(RecordKind(p, i)) ==>
          Covers(p, i, Postures(p, row), ctx.issuedAt) && Covers(p, i, [], ctx.issuedAt))
  }

  lemma AcceptedReadable(s: Statement)
    requires Accepts(s)
    ensures Readable(s.predicate_)
  {
    hide Gate0Ok, Gate1Ok, Recomputed, WellParsed, Readable, RefsWellParsed;
    AcceptsMeans(s);
  }

  /** On an accepted statement every record of a covering kind that a substrate row
      resolves is valid under the row's call and under the statement's: the two
      evaluations of one predicate never disagree. */
  lemma EvaluationsAgree(s: Statement, r: nat, i: int)
    requires Accepts(s) && r < |s.predicate_.rows| && IsSubstrate(s.predicate_.rows[r])
    requires i in s.predicate_.rows[r].refs
    ensures AgreesAt(s.predicate_, s.predicate_.rows[r], ContextOf(s), i)
  {
    hide Accepts, FailsClosed, KindsMet, CapExceeded, Bound, Covers, RecordKind, StatementBinding, ArmingPostures, IsCoveringKind, HasSubstrateRows, Unique;
    var p, row := s.predicate_, s.predicate_.rows[r];
    AcceptedRow(s, r);
    var k :| 0 <= k < |row.refs| && row.refs[k] == i;
    if IsCoveringKind(RecordKind(p, i)) {
      CarriedCovers(s, i);
      RowPosturesPinned(s, r);
      SamePostures(p, i, Postures(p, row), IssuedAtInstant(p));
    }
  }

  predicate AllPinned(p: Predicate, row: Row) {
    InRange(p, row.refs) && forall k :: 0 <= k < |Postures(p, row)| ==> Postures(p, row)[k] == PinnedPosture(p)
  }

  lemma RowPosturesPinned(s: Statement, r: nat)
    requires Accepts(s) && r < |s.predicate_.rows| && IsSubstrate(s.predicate_.rows[r])
    ensures AllPinned(s.predicate_, s.predicate_.rows[r])
  {
    hide Accepts, FailsClosed, KindsMet, CapExceeded, Bound, Covers, RecordKind, StatementBinding, ArmingPostures,
      HasSubstrateRows, Unique, PinnedPosture, RecordPayload, ObjString;
    var p, row := s.predicate_, s.predicate_.rows[r];
    AcceptedRow(s, r);
    UniqueKeepsRange(p, row.refs);
    var u := Unique(row.refs);
    forall k | 0 <= k < |u| && RecordKind(p, u[k]) == KIND_ARMING
      ensures ObjString(RecordPayload(p, u[k]), POSTURE_DIGEST) == Some(PinnedPosture(p))
    {
      assert u[k] in row.refs;
      var j :| 0 <= j < |row.refs| && row.refs[j] == u[k];
      CarriedCovers(s, u[k]);
      ArmingPosture(p, u[k], IssuedAtInstant(p));
    }
    PosturesPinned(p, u);
  }

  predicate CoveringIsRequired(p: Predicate, row: Row, ctx: Context, i: int) {
    && Readable(p) && InRange(p, row.refs)
    && (Covering(p, row, ctx, i) <==> i in row.refs && RequiredKind(Voc(p), row, RecordKind(p, i)))
  }

  /** So a row's covering set is exactly its referenced records of the required kinds. */
  lemma CoveringExactly(s: Statement, r: nat, i: int)
    requires Accepts(s) && r < |s.predicate_.rows| && IsSubstrate(s.predicate_.rows[r])
    ensures CoveringIsRequired(s.predicate_, s.predicate_.rows[r], ContextOf(s), i)
  {
    hide Accepts, FailsClosed, KindsMet, CapExceeded, Bound, Covers, RecordKind, StatementBinding, ArmingPostures,
      HasSubstrateRows, Unique, Requirements, IsCoveringKind;
    var p, row := s.predicate_, s.predicate_.rows[r];
    AcceptedRow(s, r);
    AcceptedReadable(s);
    UniqueKeepsRange(p, row.refs);
    if i in row.refs {
      EvaluationsAgree(s, r, i);
    }
  }

  /** Every accepted substrate row has a covering record of each required kind. */
  lemma CoveringNotEmpty(s: Statement, r: nat, kind: string) returns (i: int)
    requires Accepts(s) && r < |s.predicate_.rows| && IsSubstrate(s.predicate_.rows[r])
    requires Readable(s.predicate_) && RequiredKind(Voc(s.predicate_), s.predicate_.rows[r], kind)
    ensures InRecords(s.predicate_, i) && Covering(s.predicate_, s.predicate_.rows[r], ContextOf(s), i)
    ensures RecordKind(s.predicate_, i) == kind && Bound(s.predicate_.records[i], StatementBinding(s))
    ensures Covers(s.predicate_, i, [], IssuedAtInstant(s.predicate_))
  {
    hide Accepts, FailsClosed, CapExceeded, Bound, Covers, RecordKind, StatementBinding, ArmingPostures, HasSubstrateRows, Unique, Requirements, IsCoveringKind;
    var p, row := s.predicate_, s.predicate_.rows[r];
    AcceptedRow(s, r);
    UniqueKeepsRange(p, row.refs);
    var reqs := Requirements(Voc(p), row);
    var n :| 0 <= n < |reqs| && reqs[n].kind == kind;
    assert Met(p, row.refs, kind, Postures(p, row), IssuedAtInstant(p));
    var k :| 0 <= k < |row.refs| && RecordKind(p, row.refs[k]) == kind
             && Covers(p, row.refs[k], Postures(p, row), IssuedAtInstant(p));
    i := row.refs[k];
    EvaluationsAgree(s, r, i);
  }

  // ----- tiers -----

  /** The fail-closed tier branch is unreachable, no covering set is empty, and the
      producer check succeeds exactly when the tiers under the same keys satisfy the
      policy, for every key list. */
  lemma TiersAgree(c: EvalContext, keys: seq<Key>)
    requires Sealed(c)
    ensures Readable(c.s.predicate_)
    ensures AllCoveringVerify(c.s.predicate_, c.ctx, keys) <==> PolicySatisfied(c.s.predicate_, TierColumn(c.s, c.ctx, keys))
    ensures keys == [] ==> (AllCoveringVerify(c.s.predicate_, c.ctx, keys) <==> !HasSubstrateRows(c.s.predicate_))
  {
    hide CoveringVerify, Accepts, States, ContextOf, Readable;
    var p := c.s.predicate_;
    SealedReady(c);
    forall i | 0 <= i < |p.rows| && IsSubstrate(p.rows[i]) && keys == [] ensures !CoveringVerify(p, p.rows[i], c.ctx, keys) {
      NoKeysNoTier(c, i);
    }
  }

  lemma NoKeysNoTier(c: EvalContext, r: nat)
    requires Sealed(c) && r < |c.s.predicate_.rows| && IsSubstrate(c.s.predicate_.rows[r]) && Readable(c.s.predicate_)
    ensures !CoveringVerify(c.s.predicate_, c.s.predicate_.rows[r], c.ctx, [])
  {
    hide Accepts, States, ContextOf, Readable, Covering, Requirements, RowValid, HasSubstrateRows, Bound, Covers, RecordKind,
      StatementBinding, StateOf;
    var p, row := c.s.predicate_, c.s.predicate_.rows[r];
    var kind := Requirements(Voc(p), row)[0].kind;
    assert RequiredKind(Voc(p), row, kind);
    AcceptedRow(c.s, r);
    var i := CoveringNotEmpty(c.s, r, kind);
    assert !Verifies(p.records[i], []);
  }

  // ----- statements that do not fail -----

  lemma NoCaughtRow(p: Predicate, i: nat)
    requires Readable(p) && Recomputed(p) != RESULT_FAIL && i < |p.rows|
    ensures !CaughtLabel(Voc(p), p.rows[i].containmentObserved)
  {
    ResultMeans(p);
    assert !ClassifyRow(p.rows[i], Labels(p), Recompute.Caught(p)).ForcesFail?;
  }

  lemma AcceptedParts(s: Statement)
    requires Accepts(s)
    ensures GateReady(s.predicate_) && AnyBasisOk(s.predicate_) && RecordSetOk(s.predicate_) && Gate0Ok(s)
    ensures Recomputed(s.predicate_) == s.predicate_.result
    ensures HasSubstrateRows(s.predicate_) ==> SubstrateOk(s.predicate_, ContextOf(s))
  {
    hide Gate0Ok, RecordSetOk, AnyBasisOk, RowValid, WellParsed, Recomputed, SubstrateOk, ContextOf, GateReady, SomeDangling, HasSubstrateRows;
    AcceptsMeans(s);
  }

  /** In every accepted statement whose result is not fail, no carried record is an
      interception and no row declares pinned. */
  lemma NotFailNoInterception(s: Statement)
    requires Accepts(s) && s.predicate_.result != RESULT_FAIL
    ensures forall i :: 0 <= i < |s.predicate_.records| ==> RecordKind(s.predicate_, i) != KIND_INTERCEPTION
    ensures forall r :: 0 <= r < |s.predicate_.rows| ==> s.predicate_.rows[r].attribution != Some(ATTRIBUTION_PINNED)
  {
    hide Accepts, RecordSetOk, Gate0Ok, RecordKind, Recomputed, CaughtLabel, PinUnmatched, ExpectedFor, SubstrateOk, Resolves, HasSubstrateRows;
    var p := s.predicate_;
    AcceptedParts(s);
    forall i | 0 <= i < |p.records| ensures RecordKind(p, i) != KIND_INTERCEPTION {
      if CaughtResolves(p, p.rows, i) {
        var k :| 0 <= k < |p.rows| && CaughtLabel(Voc(p), p.rows[k].containmentObserved) && Resolves(p, p.rows[k], i);
        NoCaughtRow(p, k);
        assert false;
      }
      assert OrphanedAt(p, i) <==> RecordKind(p, i) == KIND_INTERCEPTION;
    }
    forall r | 0 <= r < |p.rows| ensures p.rows[r].attribution != Some(ATTRIBUTION_PINNED) {
      assert AttributionFault(p, p.rows[r]).None?;
    }
  }

  /** Nor does a seal of this run, where its array is well formed, name an attack. */
  lemma NotFailSealsEmpty(s: Statement, i: int)
    requires Accepts(s) && s.predicate_.result != RESULT_FAIL && HasSubstrateRows(s.predicate_)
    requires InRecords(s.predicate_, i) && Claims(s.predicate_, i, KIND_SEALED, StatementBinding(s))
    requires AscendingMember(RecordPayload(s.predicate_, i), OBSERVED_ATTACKS, DeclaredIds(s.predicate_))
    ensures ObjStrings(RecordPayload(s.predicate_, i), OBSERVED_ATTACKS) == Some([])
  {
    hide Accepts, RecordSetOk, Gate0Ok, AnyBasisOk, RecordKind, Recomputed, CaughtLabel, HasSubstrateRows, ObjStrings, AscendingIn, DeclaredIds,
      StatementBinding, SomeWrongSet, SealPresent, Defective, AssessedExceeds, RecordPayload, Claims;
    var p := s.predicate_;
    AcceptedParts(s);
    assert !NamesUncaught(p, i, ContextOf(s).binding);
    var ids := ObjStrings(RecordPayload(p, i), OBSERVED_ATTACKS).value;
    assert !SomeUncaught(p, ids);
    if ids != [] {
      assert HasCaughtRow(p, ids[0]);
      var r :| 0 <= r < |p.rows| && p.rows[r].attackId == ids[0] && CaughtLabel(Voc(p), p.rows[r].containmentObserved);
      NoCaughtRow(p, r);
      assert false;
    }
  }

  // ----- pass -----

  /** Exactly one row carries the identifier. */
  predicate OneRow(rows: seq<Row>, id: string) {
    exists i :: 0 <= i < |rows| && rows[i].attackId == id
                && forall j :: 0 <= j < |rows| && rows[j].attackId == id ==> j == i
  }

  /** A bound record of the kind, valid and covering, that the row resolves. */
  predicate CoveredBy(p: Predicate, row: Row, ctx: Context, kind: string)
    requires Readable(p)
  {
    exists i :: 0 <= i < |p.records| && i in row.refs && RecordKind(p, i) == kind && Bound(p.records[i], ctx.binding)
                && Covers(p, i, [], ctx.issuedAt) && Covering(p, row, ctx, i)
  }

  /** A clean, substrate, intercepted row resting on an arming and a sealed record. */
  predicate PassRow(p: Predicate, row: Row, ctx: Context)
    requires Readable(p)
  {
    && CleanLabel(Voc(p), row.containmentObserved) && IsSubstrate(row) && row.method_ == Some(METHOD_INTERCEPTED)
    && CoveredBy(p, row, ctx, KIND_ARMING) && CoveredBy(p, row, ctx, KIND_SEALED)
  }

  lemma PassRows(s: Statement, r: nat)
    requires Accepts(s) && s.predicate_.result == RESULT_PASS && r < |s.predicate_.rows|
    ensures Readable(s.predicate_) && PassRow(s.predicate_, s.predicate_.rows[r], ContextOf(s))
  {
    hide Accepts, RecordSetOk, Gate0Ok, AnyBasisOk, RecordKind, Recomputed, HasSubstrateRows, SubstrateOk, Covers, Bound, Covering, ContextOf;
    var p, row := s.predicate_, s.predicate_.rows[r];
    AcceptedParts(s);
    ResultMeans(p);
    assert ClassifyRow(row, Labels(p), Recompute.Caught(p)).DirectClean?;
    RequiredOfClean(p, row);
    PassCovered(s, r, KIND_ARMING);
    PassCovered(s, r, KIND_SEALED);
  }

  lemma RequiredOfClean(p: Predicate, row: Row)
    requires Readable(p) && row.method_ == Some(METHOD_INTERCEPTED) && !CaughtLabel(Voc(p), row.containmentObserved)
    ensures RequiredKind(Voc(p), row, KIND_ARMING) && RequiredKind(Voc(p), row, KIND_SEALED)
  {
    assert METHOD_INTERCEPTED[0] != METHOD_RECONSTRUCTED[0];
    var reqs := Requirements(Voc(p), row);
    assert reqs[0].kind == KIND_ARMING && reqs[1].kind == KIND_SEALED;
  }

  lemma PassCovered(s: Statement, r: nat, kind: string)
    requires Accepts(s) && r < |s.predicate_.rows| && IsSubstrate(s.predicate_.rows[r])
    requires Readable(s.predicate_) && RequiredKind(Voc(s.predicate_), s.predicate_.rows[r], kind)
    ensures CoveredBy(s.predicate_, s.predicate_.rows[r], ContextOf(s), kind)
  {
    hide Accepts, RecordKind, Covers, Bound, Readable, RequiredKind, InRange, IsCovering, StatementBinding;
    var i := CoveringNotEmpty(s, r, kind);
    CoveringInRange(s.predicate_, s.predicate_.rows[r], ContextOf(s), i);
  }

  /** With nothing out of scope and nothing routed elsewhere every class is assessed. */
  lemma AllAssessed(cov: Coverage, classes: Classes, id: string)
    requires Partition(cov, classes) && |cov.outOfScope| == 0 && |cov.routedElsewhere| == 0
    ensures Expected(cov, classes, id) <==> Declared(classes, id)
  {
    if Declared(classes, id) {
      var c :| c in classes && id in classes[c];
      assert Accounted(cov, c) == 1;
      assert c !in cov.outOfScope && c !in cov.routedElsewhere;
      assert c in multiset(cov.assessedClasses);
      var k :| 0 <= k < |cov.assessedClasses| && cov.assessedClasses[k] == c;
    }
  }

  /** At least one attack, and a row for exactly the attacks of the manifest, one each. */
  ghost predicate RowsAreManifest(p: Predicate, classes: Classes) {
    && (exists id: string :: Declared(classes, id))
    && (forall id: string :: HasRow(p.rows, id) <==> Declared(classes, id))
    && (forall id: string :: Declared(classes, id) ==> OneRow(p.rows, id))
  }

  /** What a passing statement shows: the rows are the manifest's attacks, every row is a
      pass row, every arming array is the manifest. */
  ghost predicate PassShows(p: Predicate, ctx: Context) {
    Readable(p) && CoverageReadable(p) && HasSubstrateRows(p) &&
    var classes := ClassesOf(p.env.value.corpus.value);
    && RowsAreManifest(p, classes)
    && (forall r :: 0 <= r < |p.rows| ==> PassRow(p, p.rows[r], ctx))
    && (forall i :: 0 <= i < |p.records| ==> ArrayIsManifest(p, i, ctx.binding, classes))
  }

  /** Coverage is complete, so the assessed attacks are the manifest's. */
  lemma PassExpected(s: Statement)
    requires Accepts(s) && s.predicate_.result == RESULT_PASS
    ensures CoverageReadable(s.predicate_) && Readable(s.predicate_)
    ensures forall id: string :: Expected(s.predicate_.coverage.value, ClassesOf(s.predicate_.env.value.corpus.value), id)
                                 <==> Declared(ClassesOf(s.predicate_.env.value.corpus.value), id)
    ensures RowsAreManifest(s.predicate_, ClassesOf(s.predicate_.env.value.corpus.value))
  {
    hide Accepts, RecordSetOk, EnvelopeOk, AnyBasisOk, Recomputed, LayersOk, SubstrateOk, Partition, BindingInputsOk,
      Declared, Expected, HasRow, Distinct, RefsWellParsed, WellParsed, HasSubstrateRows, OneRow, ContextOf;
    var p := s.predicate_;
    AcceptedParts(s);
    WellParsedPart(s);
    Gate0Leaves(s);
    var cov, classes := p.coverage.value, ClassesOf(p.env.value.corpus.value);
    ResultMeans(p);
    forall id: string ensures Expected(cov, classes, id) <==> Declared(classes, id) {
      AllAssessed(cov, classes, id);
    }
    RowsFromManifest(p, cov, classes);
  }

  lemma RowsFromManifest(p: Predicate, cov: Coverage, classes: Classes)
    requires RowsAsExpected(p, cov, classes) && Distinct(RowIds(p.rows)) && !NoAttacks(classes)
    requires forall id: string :: Expected(cov, classes, id) <==> Declared(classes, id)
    ensures RowsAreManifest(p, classes)
  {
    hide Declared, Expected, HasRow, Distinct, OneRow;
    ManifestHasAttack(classes);
    forall id: string ensures HasRow(p.rows, id) <==> Declared(classes, id) {
      assert HasRow(p.rows, id) <==> Expected(cov, classes, id);
    }
    forall id: string | Declared(classes, id) ensures OneRow(p.rows, id) {
      UniqueRow(p.rows, id);
    }
  }

  /** Pass soundness. */
  lemma PassSound(s: Statement)
    requires Accepts(s) && s.predicate_.result == RESULT_PASS
    ensures PassShows(s.predicate_, ContextOf(s))
  {
    hide Accepts, Declared, Expected, HasRow, PassRow, ArrayIsManifest, Readable, StatementBinding, OneRow, HasSubstrateRows;
    var p := s.predicate_;
    PassExpected(s);
    var classes := ClassesOf(p.env.value.corpus.value);
    forall r | 0 <= r < |p.rows| ensures PassRow(p, p.rows[r], ContextOf(s)) {
      PassRows(s, r);
    }
    var id: string :| Declared(classes, id);
    SomePassRow(s, id);
    forall i | 0 <= i < |p.records| ensures ArrayIsManifest(p, i, StatementBinding(s), classes) {
      ArmingArray(s, i, classes);
    }
  }

  lemma WellParsedPart(s: Statement)
    requires Accepts(s)
    ensures WellParsed(s.predicate_, s.parseCodes)
  {
    hide Gate0Ok, Gate1Ok, Recomputed, WellParsed, GateReady;
    AcceptsMeans(s);
  }

  lemma ManifestHasAttack(classes: Classes)
    requires !NoAttacks(classes)
    ensures exists id: string :: Declared(classes, id)
  {
    var c :| c in classes && classes[c] != [];
    assert Declared(classes, classes[c][0]);
  }

  lemma UniqueRow(rows: seq<Row>, id: string)
    requires Distinct(RowIds(rows)) && HasRow(rows, id)
    ensures OneRow(rows, id)
  {
    var i :| 0 <= i < |rows| && rows[i].attackId == id;
    forall j | 0 <= j < |rows| && rows[j].attackId == id ensures j == i {
      assert RowIds(rows)[i] == RowIds(rows)[j];
    }
  }

  lemma SomePassRow(s: Statement, id: string)
    requires HasRow(s.predicate_.rows, id) && Readable(s.predicate_)
    requires forall r :: 0 <= r < |s.predicate_.rows| ==> PassRow(s.predicate_, s.predicate_.rows[r], ContextOf(s))
    ensures HasSubstrateRows(s.predicate_)
  {
    hide CoveredBy, CleanLabel, ContextOf;
    var i :| 0 <= i < |s.predicate_.rows| && s.predicate_.rows[i].attackId == id;
  }

  /** The array of a bound arming record, where well formed, is the manifest's attack
      set. */
  ghost predicate ArrayIsManifest(p: Predicate, i: int, binding: string, classes: Classes)
    requires InRecords(p, i)
  {
    var ids := ObjStrings(RecordPayload(p, i), ASSESSED_ATTACKS);
    Claims(p, i, KIND_ARMING, binding) && ids.Some? && AscendingIn(ids.value, DeclaredIds(p)) ==>
      forall id: string :: id in ids.value <==> Declared(classes, id)
  }

  lemma DeclaredIdsAre(p: Predicate, id: string)
    requires p.env.Some? && p.env.value.corpus.Some?
    ensures id in DeclaredIds(p) <==> Declared(ClassesOf(p.env.value.corpus.value), id)
  {
  }

  lemma ArmingArray(s: Statement, i: int, classes: Classes)
    requires Accepts(s) && HasSubstrateRows(s.predicate_) && InRecords(s.predicate_, i) && CoverageReadable(s.predicate_)
    requires classes == ClassesOf(s.predicate_.env.value.corpus.value)
    requires forall id: string :: Expected(s.predicate_.coverage.value, classes, id) <==> Declared(classes, id)
    ensures ArrayIsManifest(s.predicate_, i, StatementBinding(s), classes)
  {
    hide Accepts, RecordSetOk, Gate0Ok, AnyBasisOk, RecordKind, Recomputed, ObjStrings, DeclaredIds, StrictlyAscending,
      StatementBinding, SomeWrongSet, SealPresent, Defective, SealNamesUncaught, RecordPayload, Claims, Expected, Declared,
      Readable, RefsWellParsed, HasSubstrateRows;
    var p := s.predicate_;
    AcceptedParts(s);
    assert !Exceeds(p, i, ContextOf(s).binding);
    var found := ObjStrings(RecordPayload(p, i), ASSESSED_ATTACKS);
    if Claims(p, i, KIND_ARMING, StatementBinding(s)) && found.Some? && AscendingIn(found.value, DeclaredIds(p)) {
      assert !LeavesOut(p, found.value);
      forall id: string ensures id in found.value <==> Declared(classes, id) {
        DeclaredIdsAre(p, id);
        assert Expected(p.coverage.value, classes, id) <==> Declared(classes, id);
      }
    }
  }
}
