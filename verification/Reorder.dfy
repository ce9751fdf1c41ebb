/** The order of attackResults, and the order and multiplicity of the indexes inside a
    row's observationRefs, reach neither validity nor result; tiers move with their
    rows. */
module Reorder {
  import opened Core
  import opened Sorting
  import opened Statements
  import opened CorpusManifest
  import opened Gate0
  import opened Payloads
  import opened Rows
  import opened RecordSet
  import opened Commitments
  import opened Seals
  import opened Gate1
  import opened Recompute
  import opened Accepted
  import opened Evaluate
  import opened Alike
  import Soundness
  import Binding

  // ----- the relation -----

  predicate SameRefs(a: seq<int>, b: seq<int>) {
    (forall i :: 0 <= i < |a| ==> a[i] in b) && (forall i :: 0 <= i < |b| ==> b[i] in a)
  }

  /** The same row but for order and repetition in its refs. */
  predicate SameRow(a: Row, b: Row) {
    a == b.(refs := a.refs) && SameRefs(a.refs, b.refs)
  }

  predicate Inverse(perm: seq<nat>, inv: seq<nat>) {
    && |perm| == |inv|
    && (forall i :: 0 <= i < |perm| ==> perm[i] < |inv| && inv[perm[i]] == i)
    && (forall i :: 0 <= i < |inv| ==> inv[i] < |perm| && perm[inv[i]] == i)
  }

  /** q's rows are p's, moved by perm. */
  predicate Moved(p: Predicate, q: Predicate, perm: seq<nat>, inv: seq<nat>) {
    && q == p.(rows := q.rows) && |perm| == |p.rows| == |q.rows| && Inverse(perm, inv)
    && forall i :: 0 <= i < |q.rows| ==> SameRow(q.rows[i], p.rows[perm[i]])
  }

  predicate Reordered(s: Statement, t: Statement, perm: seq<nat>, inv: seq<nat>) {
    t == s.(predicate_ := t.predicate_) && Moved(s.predicate_, t.predicate_, perm, inv)
  }

  lemma MovedBack(p: Predicate, q: Predicate, perm: seq<nat>, inv: seq<nat>)
    requires Moved(p, q, perm, inv)
    ensures Moved(q, p, inv, perm)
  {
    forall i | 0 <= i < |p.rows| ensures SameRow(p.rows[i], q.rows[inv[i]]) {
      assert perm[inv[i]] == i;
    }
  }

  /** Every row of q is, but for its refs, a row of p. */
  lemma RowFrom(p: Predicate, q: Predicate, perm: seq<nat>, inv: seq<nat>, i: nat)
    requires Moved(p, q, perm, inv) && i < |q.rows|
    ensures perm[i] < |p.rows| && SameRow(q.rows[i], p.rows[perm[i]])
  {
  }

  // ----- one row -----

  lemma {:induction false} PostureMembers(p: Predicate, refs: seq<int>, x: string)
    requires InRange(p, refs)
    ensures x in ArmingPostures(p, refs) <==>
              exists k :: 0 <= k < |refs| && RecordKind(p, refs[k]) == KIND_ARMING
                          && ObjString(RecordPayload(p, refs[k]), POSTURE_DIGEST) == Some(x)
  {
    hide RecordKind, RecordPayload, ObjString;
    if refs != [] {
      PostureMembers(p, refs[..|refs| - 1], x);
    }
  }

  lemma PosturesOfSame(p: Predicate, a: Row, b: Row, x: string)
    requires InRange(p, a.refs) && InRange(p, b.refs) && SameRefs(a.refs, b.refs)
    ensures x in Postures(p, a) ==> x in Postures(p, b)
  {
    hide RecordKind, RecordPayload, ObjString, ArmingPostures, Unique;
    UniqueKeepsRange(p, a.refs);
    UniqueKeepsRange(p, b.refs);
    var u, v := Unique(a.refs), Unique(b.refs);
    PostureMembers(p, u, x);
    PostureMembers(p, v, x);
    if x in Postures(p, a) {
      var k :| 0 <= k < |u| && RecordKind(p, u[k]) == KIND_ARMING && ObjString(RecordPayload(p, u[k]), POSTURE_DIGEST) == Some(x);
      assert u[k] in a.refs && u[k] in b.refs && u[k] in v;
      var j :| 0 <= j < |v| && v[j] == u[k];
    }
  }

  /** Posture claims are read as a set. */
  lemma CoversBySet(p: Predicate, i: int, a: seq<string>, b: seq<string>, issuedAt: int)
    requires 0 <= i < |p.records| && forall x :: x in a <==> x in b
    ensures Covers(p, i, a, issuedAt) <==> Covers(p, i, b, issuedAt)
  {
    hide InterceptionOk, ArmingOk, DropsWithinBound, AscendingMember, ObjString, ObjBool, RecordPayload, RecordKind,
      RecordMethod, PinnedPosture, DeclaredIds, IsLowerHex64;
    assert forall k :: 0 <= k < |a| ==> a[k] in b;
    assert forall k :: 0 <= k < |b| ==> b[k] in a;
  }

  lemma SameRange(p: Predicate, a: seq<int>, b: seq<int>)
    requires SameRefs(a, b) && InRange(p, a)
    ensures InRange(p, b)
  {
    forall i | 0 <= i < |b| ensures 0 <= b[i] < |p.records| {
      assert b[i] in a;
    }
  }

  lemma SameKindsMet(p: Predicate, a: Row, b: Row, issuedAt: int, kind: string)
    requires InRange(p, a.refs) && InRange(p, b.refs) && SameRefs(a.refs, b.refs)
    requires Met(p, a.refs, kind, Postures(p, a), issuedAt)
    ensures Met(p, b.refs, kind, Postures(p, b), issuedAt)
  {
    hide Covers, RecordKind, Postures;
    var k :| 0 <= k < |a.refs| && RecordKind(p, a.refs[k]) == kind && Covers(p, a.refs[k], Postures(p, a), issuedAt);
    forall x ensures x in Postures(p, a) <==> x in Postures(p, b) {
      PosturesOfSame(p, a, b, x);
      PosturesOfSame(p, b, a, x);
    }
    CoversBySet(p, a.refs[k], Postures(p, a), Postures(p, b), issuedAt);
    assert a.refs[k] in b.refs;
    var j :| 0 <= j < |b.refs| && b.refs[j] == a.refs[k];
  }

  lemma SameIsCoveringRow(p: Predicate, a: Row, b: Row, issuedAt: int, i: int)
    requires Readable(p) && InRange(p, a.refs) && InRange(p, b.refs) && SameRow(a, b)
    ensures IsCovering(p, a, i, Postures(p, a), issuedAt) <==> IsCovering(p, b, i, Postures(p, b), issuedAt)
  {
    hide Covers, RecordKind, Postures, SameRefs;
    assert i in a.refs <==> i in b.refs by { SameMember(a.refs, b.refs, i); }
    if i in a.refs {
      forall x ensures x in Postures(p, a) <==> x in Postures(p, b) {
        SameRefsBack(a.refs, b.refs);
        PosturesOfSame(p, a, b, x);
        PosturesOfSame(p, b, a, x);
      }
      CoversBySet(p, i, Postures(p, a), Postures(p, b), issuedAt);
      assert Requirements(Voc(p), a) == Requirements(Voc(p), b);
      assert RequiredKind(Voc(p), a, RecordKind(p, i)) <==> RequiredKind(Voc(p), b, RecordKind(p, i));
    }
  }

  lemma SameMember(a: seq<int>, b: seq<int>, i: int)
    requires SameRefs(a, b)
    ensures i in a <==> i in b
  {
  }

  lemma SameRefsBack(a: seq<int>, b: seq<int>)
    requires SameRefs(a, b)
    ensures SameRefs(b, a)
  {
  }

  lemma SameRowValid(p: Predicate, a: Row, b: Row, ctx: Context)
    requires Readable(p) && SameRow(a, b) && RowValid(p, a, ctx)
    ensures RowValid(p, b, ctx)
  {
    hide Bound, Met, Requirements, IsCovering, RecordMethod, Postures;
    SameRange(p, a.refs, b.refs);
    assert a.refs[0] in b.refs;
    forall i | 0 <= i < |b.refs| ensures Bound(p.records[b.refs[i]], ctx.binding) {
      assert b.refs[i] in a.refs;
      var j :| 0 <= j < |a.refs| && a.refs[j] == b.refs[i];
    }
    assert Requirements(Voc(p), a) == Requirements(Voc(p), b) by { SameRequirements(Voc(p), a, b); }
    var reqs := Requirements(Voc(p), a);
    forall k | 0 <= k < |reqs| ensures Met(p, b.refs, reqs[k].kind, Postures(p, b), ctx.issuedAt) {
      SameKindsMet(p, a, b, ctx.issuedAt, reqs[k].kind);
    }
    SameCapRow(p, a, b, ctx.issuedAt);
  }

  lemma SameCapRow(p: Predicate, a: Row, b: Row, issuedAt: int)
    requires Readable(p) && InRange(p, a.refs) && InRange(p, b.refs) && SameRow(a, b)
    ensures CapExceeded(p, b, Postures(p, b), issuedAt) ==> CapExceeded(p, a, Postures(p, a), issuedAt)
  {
    hide IsCovering, RecordMethod, Postures;
    if CapExceeded(p, b, Postures(p, b), issuedAt) {
      var k :| 0 <= k < |b.refs| && IsCovering(p, b, b.refs[k], Postures(p, b), issuedAt)
               && RecordMethod(p, b.refs[k]) == METHOD_RECONSTRUCTED;
      SameIsCoveringRow(p, a, b, issuedAt, b.refs[k]);
      assert b.refs[k] in a.refs;
      var j :| 0 <= j < |a.refs| && a.refs[j] == b.refs[k];
    }
  }

  lemma SameRequirements(v: Vocabulary, a: Row, b: Row)
    requires SameRow(a, b)
    ensures Requirements(v, a) == Requirements(v, b)
  {
  }

  /** The rows of a predicate are not read in judging one of them. */
  lemma RowValidElsewhere(p: Predicate, q: Predicate, row: Row, ctx: Context)
    requires Same(p, q) && Readable(p) && RefsWellParsed(row) && RowValid(p, row, ctx)
    ensures Readable(q) && RowValid(q, row, ctx)
  {
    hide RowValid, RowCodes, Same, Readable, RefsWellParsed;
    RowExactly(p, row, ctx);
    SameRowCodes(p, q, row, ctx);
    RowExactly(q, row, ctx);
  }

  lemma SameCoveringRow(p: Predicate, a: Row, b: Row, ctx: Context, i: int)
    requires Readable(p) && SameRow(a, b)
    ensures Covering(p, a, ctx, i) <==> Covering(p, b, ctx, i)
  {
    hide IsCovering, ArmingPostures, Unique, SameRefs;
    SameRefsBack(a.refs, b.refs);
    if InRange(p, a.refs) || InRange(p, b.refs) {
      if InRange(p, a.refs) {
        SameRange(p, a.refs, b.refs);
      } else {
        SameRange(p, b.refs, a.refs);
      }
      UniqueKeepsRange(p, a.refs);
      UniqueKeepsRange(p, b.refs);
      SameIsCoveringRow(p, a, b, ctx.issuedAt, i);
    }
  }

  lemma SameAttributionRow(p: Predicate, a: Row, b: Row)
    requires SameRow(a, b) && AttributionFault(p, a).None?
    ensures AttributionFault(p, b).None?
  {
    hide RecordKind, UnmatchedPin;
    SameResolvesRow(p, a, b, KIND_INTERCEPTION);
    var expected := ExpectedFor(p, a.attackId);
    if PinUnmatched(p, b, expected) {
      var k :| 0 <= k < |b.refs| && InRecords(p, b.refs[k]) && UnmatchedPin(p, b.refs[k], expected);
      assert b.refs[k] in a.refs;
      var j :| 0 <= j < |a.refs| && a.refs[j] == b.refs[k];
      assert PinUnmatched(p, a, expected);
    }
  }

  lemma SameResolvesRow(p: Predicate, a: Row, b: Row, kind: string)
    requires SameRow(a, b)
    ensures ResolvesKind(p, a, kind) <==> ResolvesKind(p, b, kind)
  {
    hide RecordKind;
    if ResolvesKind(p, a, kind) {
      var k :| 0 <= k < |a.refs| && InRecords(p, a.refs[k]) && RecordKind(p, a.refs[k]) == kind;
      assert a.refs[k] in b.refs;
      var j :| 0 <= j < |b.refs| && b.refs[j] == a.refs[k];
    }
    if ResolvesKind(p, b, kind) {
      var k :| 0 <= k < |b.refs| && InRecords(p, b.refs[k]) && RecordKind(p, b.refs[k]) == kind;
      assert b.refs[k] in a.refs;
      var j :| 0 <= j < |a.refs| && a.refs[j] == b.refs[k];
    }
  }

  lemma SameWellParsedRow(a: Row, b: Row)
    requires SameRow(a, b) && RefsWellParsed(b)
    ensures RefsWellParsed(a)
  {
    forall i | 0 <= i < |a.refs| ensures a.refs[i] >= 0 {
      assert a.refs[i] in b.refs;
    }
    if a.refs != [] {
      assert a.refs[0] in b.refs;
    }
  }

  // ----- all rows -----

  /** What the gates ask of the rows one by one, and of the attack ids together. */
  lemma MovedIds(p: Predicate, q: Predicate, perm: seq<nat>, inv: seq<nat>)
    requires Moved(p, q, perm, inv)
    ensures forall id: string :: HasRow(q.rows, id) <==> HasRow(p.rows, id)
    ensures HasSubstrateRows(q) <==> HasSubstrateRows(p)
    ensures Distinct(RowIds(p.rows)) ==> Distinct(RowIds(q.rows))
  {
    MovedBack(p, q, perm, inv);
    forall id: string ensures HasRow(q.rows, id) <==> HasRow(p.rows, id) {
      if HasRow(q.rows, id) {
        var i :| 0 <= i < |q.rows| && q.rows[i].attackId == id;
        RowFrom(p, q, perm, inv, i);
      }
      if HasRow(p.rows, id) {
        var i :| 0 <= i < |p.rows| && p.rows[i].attackId == id;
        RowFrom(q, p, inv, perm, i);
      }
    }
    if HasSubstrateRows(q) {
      var i :| 0 <= i < |q.rows| && IsSubstrate(q.rows[i]);
      RowFrom(p, q, perm, inv, i);
    }
    if HasSubstrateRows(p) {
      var i :| 0 <= i < |p.rows| && IsSubstrate(p.rows[i]);
      RowFrom(q, p, inv, perm, i);
    }
    if Distinct(RowIds(p.rows)) {
      forall i, j | 0 <= i < j < |q.rows| ensures RowIds(q.rows)[i] != RowIds(q.rows)[j] {
        RowFrom(p, q, perm, inv, i);
        RowFrom(p, q, perm, inv, j);
        assert perm[i] != perm[j];
        assert RowIds(p.rows)[perm[i]] != RowIds(p.rows)[perm[j]];
      }
    }
  }

  lemma MovedGate0(s: Statement, t: Statement, perm: seq<nat>, inv: seq<nat>)
    requires Reordered(s, t, perm, inv) && Gate0Ok(s)
    ensures Gate0Ok(t)
  {
    hide EnvironmentOk, Partition, Expected, HasRow, HasSubstrateRows, Distinct, Declared, Inverse, CleanLabel, IsLowerHex64,
      EnvironmentDigestBad, RefSha256, SameRefs;
    var p, q := s.predicate_, t.predicate_;
    MovedIds(p, q, perm, inv);
    assert EnvelopeOk(t);
    EnvironmentMembersThere(p.env.value);
    forall i | 0 <= i < |q.rows|
      ensures q.rows[i].actualLayer.Some? && !CleanRowWithLayer(q.env.value.vocabulary.value, q.rows[i])
    {
      RowFrom(p, q, perm, inv, i);
      assert !CleanRowWithLayer(p.env.value.vocabulary.value, p.rows[perm[i]]);
    }
    if q.env.value.corpus.value.classes.Some? && q.coverage.Some? {
      MovedIntegrity(p, q, perm, inv, q.coverage.value, q.env.value.corpus.value.classes.value);
    }
  }

  lemma MovedIntegrity(p: Predicate, q: Predicate, perm: seq<nat>, inv: seq<nat>, cov: Coverage, classes: Classes)
    requires Moved(p, q, perm, inv) && IntegrityOk(p, cov, classes)
    ensures IntegrityOk(q, cov, classes)
  {
    hide Partition, Expected, HasRow, HasSubstrateRows, Distinct, Declared, Inverse, SameRefs;
    MovedIds(p, q, perm, inv);
    MovedUnknown(p, q, perm, inv, classes);
  }

  lemma MovedUnknown(p: Predicate, q: Predicate, perm: seq<nat>, inv: seq<nat>, classes: Classes)
    requires Moved(p, q, perm, inv)
    ensures RowUnknown(q, classes) ==> RowUnknown(p, classes)
  {
    hide Declared, Inverse, SameRefs;
    if RowUnknown(q, classes) {
      var i :| 0 <= i < |q.rows| && !Declared(classes, q.rows[i].attackId);
      RowFrom(p, q, perm, inv, i);
    }
  }

  lemma MovedWellParsed(s: Statement, t: Statement, perm: seq<nat>, inv: seq<nat>)
    requires Reordered(s, t, perm, inv) && WellParsed(s.predicate_, s.parseCodes)
    ensures WellParsed(t.predicate_, t.parseCodes)
  {
    hide RefsWellParsed, Inverse;
    var p, q := s.predicate_, t.predicate_;
    forall i | 0 <= i < |q.rows| ensures RefsWellParsed(q.rows[i]) {
      RowFrom(p, q, perm, inv, i);
      SameWellParsedRow(q.rows[i], p.rows[perm[i]]);
    }
  }

  lemma MovedSame(p: Predicate, q: Predicate, perm: seq<nat>, inv: seq<nat>)
    requires Moved(p, q, perm, inv)
    ensures Same(p, q)
  {
    hide Inverse, SameRow;
  }

  lemma MovedAnyBasis(p: Predicate, q: Predicate, perm: seq<nat>, inv: seq<nat>)
    requires Moved(p, q, perm, inv) && Readable(p) && AnyBasisOk(p)
    ensures AnyBasisOk(q)
  {
    hide ResolvesKind, RecordKind, CleanLabel, CaughtLabel, AttributionFault, Inverse, SameRefs;
    MovedSame(p, q, perm, inv);
    MovedBack(p, q, perm, inv);
    forall i | 0 <= i < |q.rows| ensures AttributionFault(q, q.rows[i]).None? {
      RowFrom(p, q, perm, inv, i);
      BackRow(q.rows[i], p.rows[perm[i]]);
      SameAttributionRow(p, p.rows[perm[i]], q.rows[i]);
      SameAttribution(p, q, q.rows[i]);
    }
    MovedContradicted(p, q, perm, inv);
    MovedOrphaned(p, q, perm, inv);
  }

  lemma MovedContradicted(p: Predicate, q: Predicate, perm: seq<nat>, inv: seq<nat>)
    requires Moved(p, q, perm, inv) && Readable(p)
    ensures CleanContradicted(q) ==> CleanContradicted(p)
  {
    hide ResolvesKind, CleanLabel, Inverse, SameRefs;
    MovedSame(p, q, perm, inv);
    if CleanContradicted(q) {
      var i :| 0 <= i < |q.rows| && ContradictedRow(q, q.rows[i]);
      RowFrom(p, q, perm, inv, i);
      SameResolves(p, q, q.rows[i], KIND_INTERCEPTION);
      SameResolvesRow(p, q.rows[i], p.rows[perm[i]], KIND_INTERCEPTION);
      assert ContradictedRow(p, p.rows[perm[i]]);
    }
  }

  lemma MovedOrphaned(p: Predicate, q: Predicate, perm: seq<nat>, inv: seq<nat>)
    requires Moved(p, q, perm, inv) && Readable(p)
    ensures Orphaned(q) ==> Orphaned(p)
  {
    hide RecordKind, CaughtResolves, Inverse, SameRow;
    MovedSame(p, q, perm, inv);
    if Orphaned(q) {
      var i :| 0 <= i < |q.records| && OrphanedAt(q, i);
      SameRecord(p, q, i);
      MovedCaught(p, q, perm, inv, i);
      assert OrphanedAt(p, i);
    }
  }

  lemma BackRow(a: Row, b: Row)
    requires SameRow(a, b)
    ensures SameRow(b, a)
  {
  }

  lemma MovedCaught(p: Predicate, q: Predicate, perm: seq<nat>, inv: seq<nat>, i: int)
    requires Moved(p, q, perm, inv) && Readable(p)
    ensures CaughtResolves(p, p.rows, i) ==> CaughtResolves(q, q.rows, i)
  {
    hide CaughtLabel, Inverse;
    MovedBack(p, q, perm, inv);
    if CaughtResolves(p, p.rows, i) {
      var k :| 0 <= k < |p.rows| && CaughtLabel(Voc(p), p.rows[k].containmentObserved) && Resolves(p, p.rows[k], i);
      RowFrom(q, p, inv, perm, k);
      InverseRange(perm, inv, k);
      assert i in q.rows[inv[k]].refs;
      assert Resolves(q, q.rows[inv[k]], i);
    }
  }

  lemma InverseRange(perm: seq<nat>, inv: seq<nat>, k: nat)
    requires Inverse(perm, inv) && k < |inv|
    ensures inv[k] < |perm|
  {
  }

  lemma MovedSubstrate(p: Predicate, q: Predicate, perm: seq<nat>, inv: seq<nat>, ctx: Context)
    requires Moved(p, q, perm, inv) && Readable(p) && SubstrateOk(p, ctx)
    ensures SubstrateOk(q, ctx)
  {
    hide WrongSet, GoodSeal, NamesUncaught, Exceeds, Defective, Inverse, SameRow;
    MovedSame(p, q, perm, inv);
    if !NoRecords(q) {
      forall i | 0 <= i < |p.records|
        ensures WrongSet(q, i, ctx.binding) <==> WrongSet(p, i, ctx.binding)
        ensures GoodSeal(q, i, ctx) <==> GoodSeal(p, i, ctx)
        ensures Defective(q, i, ctx) <==> Defective(p, i, ctx)
        ensures NamesUncaught(q, i, ctx.binding) ==> NamesUncaught(p, i, ctx.binding)
        ensures CoverageReadable(p) ==> (Exceeds(q, i, ctx.binding) <==> Exceeds(p, i, ctx.binding))
      {
        SameSeals(p, q, i, ctx);
        MovedClaims(p, q, perm, inv, i, ctx.binding);
      }
      assert SealPresent(q, ctx) by {
        var i :| 0 <= i < |p.records| && GoodSeal(p, i, ctx);
        assert GoodSeal(q, i, ctx);
      }
    }
  }

  lemma MovedClaims(p: Predicate, q: Predicate, perm: seq<nat>, inv: seq<nat>, i: int, binding: string)
    requires Moved(p, q, perm, inv) && Readable(p) && InRecords(p, i)
    ensures NamesUncaught(q, i, binding) ==> NamesUncaught(p, i, binding)
    ensures CoverageReadable(p) ==> (Exceeds(q, i, binding) <==> Exceeds(p, i, binding))
  {
    hide ObjString, ObjStrings, RecordPayload, RecordKind, AscendingIn, Expected, HasCaughtRow, Inverse, SameRow;
    MovedSame(p, q, perm, inv);
    SameRecord(p, q, i);
    assert DeclaredIds(q) == DeclaredIds(p);
    forall id: string | HasCaughtRow(p, id) ensures HasCaughtRow(q, id) {
      MovedCaughtRow(p, q, perm, inv, id);
    }
  }

  lemma MovedCaughtRow(p: Predicate, q: Predicate, perm: seq<nat>, inv: seq<nat>, id: string)
    requires Moved(p, q, perm, inv) && Readable(p) && HasCaughtRow(p, id)
    ensures HasCaughtRow(q, id)
  {
    hide CaughtLabel, SameRefs;
    MovedBack(p, q, perm, inv);
    var k :| 0 <= k < |p.rows| && p.rows[k].attackId == id && CaughtLabel(Voc(p), p.rows[k].containmentObserved);
    RowFrom(q, p, inv, perm, k);
  }

  lemma MovedDangling(p: Predicate, q: Predicate, perm: seq<nat>, inv: seq<nat>)
    requires Moved(p, q, perm, inv) && SomeDangling(q)
    ensures SomeDangling(p)
  {
    hide Inverse;
    var i :| 0 <= i < |q.rows| && Dangling(q, q.rows[i]);
    RowFrom(p, q, perm, inv, i);
    var k :| 0 <= k < |q.rows[i].refs| && !InRecords(q, q.rows[i].refs[k]);
    assert q.rows[i].refs[k] in p.rows[perm[i]].refs;
    var j :| 0 <= j < |p.rows[perm[i]].refs| && p.rows[perm[i]].refs[j] == q.rows[i].refs[k];
    PermRange(perm, inv, i);
    assert Dangling(p, p.rows[perm[i]]);
  }

  lemma PermRange(perm: seq<nat>, inv: seq<nat>, i: nat)
    requires Inverse(perm, inv) && i < |perm|
    ensures perm[i] < |perm|
  {
  }

  lemma MovedResult(p: Predicate, q: Predicate, perm: seq<nat>, inv: seq<nat>)
    requires Moved(p, q, perm, inv)
    ensures Recomputed(q) == Recomputed(p)
  {
    hide Inverse, SameRefs;
    MovedBack(p, q, perm, inv);
    MovedClass(p, q, perm, inv, ForcesFail);
    MovedClass(q, p, inv, perm, ForcesFail);
    MovedClass(p, q, perm, inv, IndirectClean);
    MovedClass(q, p, inv, perm, IndirectClean);
  }

  lemma MovedClass(p: Predicate, q: Predicate, perm: seq<nat>, inv: seq<nat>, c: RowClass)
    requires Moved(p, q, perm, inv)
    ensures SomeRow(q.rows, Labels(q), Recompute.Caught(q), c) ==> SomeRow(p.rows, Labels(p), Recompute.Caught(p), c)
  {
    hide SameRefs;
    if SomeRow(q.rows, Labels(q), Recompute.Caught(q), c) {
      var i :| 0 <= i < |q.rows| && ClassifyRow(q.rows[i], Labels(q), Recompute.Caught(q)) == c;
      RowFrom(p, q, perm, inv, i);
      assert ClassifyRow(p.rows[perm[i]], Labels(p), Recompute.Caught(p)) == c;
    }
  }

  lemma MovedRows(s: Statement, t: Statement, perm: seq<nat>, inv: seq<nat>, i: nat)
    requires Reordered(s, t, perm, inv) && Accepts(s) && i < |t.predicate_.rows| && IsSubstrate(t.predicate_.rows[i])
    ensures Readable(t.predicate_) && RowValid(t.predicate_, t.predicate_.rows[i], ContextOf(t))
  {
    hide Gate0Ok, Gate1Ok, RowValid, Readable, RefsWellParsed, ContextOf, Recomputed, RecordSetOk, Inverse, SameRefs;
    var p, q := s.predicate_, t.predicate_;
    AcceptsMeans(s);
    RowFrom(p, q, perm, inv, i);
    PermRange(perm, inv, i);
    Soundness.AcceptedRow(s, perm[i]);
    BackRow(q.rows[i], p.rows[perm[i]]);
    SameRowValid(p, p.rows[perm[i]], q.rows[i], ContextOf(s));
    SameWellParsedRow(q.rows[i], p.rows[perm[i]]);
    MovedSame(p, q, perm, inv);
    RowValidElsewhere(p, q, q.rows[i], ContextOf(s));
    MovedContext(s, t);
  }

  lemma MovedContext(s: Statement, t: Statement)
    requires t == s.(predicate_ := s.predicate_.(rows := t.predicate_.rows))
    ensures ContextOf(t) == ContextOf(s)
  {
    hide PosturePreimage, SHA256Hex, Binding.Preimage;
  }

  lemma AcceptsMoved(s: Statement, t: Statement, perm: seq<nat>, inv: seq<nat>)
    requires Reordered(s, t, perm, inv) && Accepts(s)
    ensures Accepts(t)
  {
    hide Gate0Ok, RowValid, Readable, RefsWellParsed, ContextOf, Recomputed, Inverse, SameRefs, AnyBasisOk, SubstrateOk,
      SomeDangling, HasSubstrateRows, SameRow, WellParsed;
    var p, q := s.predicate_, t.predicate_;
    AcceptsMeans(s);
    AcceptsMeans(t);
    MovedWellParsed(s, t, perm, inv);
    MovedGate0(s, t, perm, inv);
    Gate0Leaves(t);
    MovedContext(s, t);
    MovedAnyBasis(p, q, perm, inv);
    MovedIds(p, q, perm, inv);
    MovedResult(p, q, perm, inv);
    assert RecordSetOk(q) by { SameRecordSet(p, q); }
    if q.records != [] && SomeDangling(q) {
      MovedDangling(p, q, perm, inv);
    }
    if HasSubstrateRows(q) {
      MovedSubstrate(p, q, perm, inv, ContextOf(s));
      forall i | 0 <= i < |q.rows| && IsSubstrate(q.rows[i]) ensures RowValid(q, q.rows[i], ContextOf(t)) {
        MovedRows(s, t, perm, inv, i);
      }
    }
  }

  lemma SameRecordSet(p: Predicate, q: Predicate)
    requires q == p.(rows := q.rows) && RecordSetOk(p)
    ensures RecordSetOk(q)
  {
    hide SomeUnsigned, SomeUndecodable, SomeDuplicate, RootHex;
  }

  /** Reordering rows, and permuting or repeating indexes inside a row, change neither
      validity nor result. */
  lemma OrderDoesNotReachValidity(s: Statement, t: Statement, perm: seq<nat>, inv: seq<nat>)
    requires Reordered(s, t, perm, inv)
    ensures Accepts(t) <==> Accepts(s)
    ensures Recomputed(t.predicate_) == Recomputed(s.predicate_) && t.predicate_.result == s.predicate_.result
  {
    hide Accepts, Recomputed;
    MovedBack(s.predicate_, t.predicate_, perm, inv);
    MovedResult(s.predicate_, t.predicate_, perm, inv);
    if Accepts(s) {
      AcceptsMoved(s, t, perm, inv);
    }
    if Accepts(t) {
      AcceptsMoved(t, s, inv, perm);
    }
  }

  /** Tiers move with their rows. */
  lemma TiersMove(s: Statement, t: Statement, perm: seq<nat>, inv: seq<nat>, ctx: Context, keys: seq<Key>, i: nat)
    requires Reordered(s, t, perm, inv) && Readable(s.predicate_) && i < |t.predicate_.rows|
    ensures perm[i] < |s.predicate_.rows| && Readable(t.predicate_)
    ensures TierColumn(t, ctx, keys)[i] == TierColumn(s, ctx, keys)[perm[i]]
  {
    hide Covering, Verifies, Inverse, SameRefs;
    var p, q := s.predicate_, t.predicate_;
    PermRange(perm, inv, i);
    RowFrom(p, q, perm, inv, i);
    MovedSame(p, q, perm, inv);
    forall k | 0 <= k < |p.records| ensures Covering(q, q.rows[i], ctx, k) <==> Covering(p, p.rows[perm[i]], ctx, k) {
      SameCovering(p, q, q.rows[i], ctx, k);
      SameCoveringRow(p, q.rows[i], p.rows[perm[i]], ctx, k);
    }
    assert q.records == p.records;
    assert CoveringVerify(q, q.rows[i], ctx, keys) <==> CoveringVerify(p, p.rows[perm[i]], ctx, keys);
  }
}
