/** Validity and result do not read signatures beyond their presence, and more keys or
    more signatures never lower a tier. */
module NonInterference {
  import opened Core
  import opened Codes
  import opened Statements
  import opened Gate0
  import opened Payloads
  import opened Rows
  import opened RecordSet
  import opened Commitments
  import opened Seals
  import opened Gate1
  import opened Recompute
  import opened Accepted
  import opened Evaluate
  import opened Alike
  import opened CorpusManifest
  import opened Sorting
  import Merkle
  import Binding

  /** The same statement but for its records' signatures. */
  predicate Resigned(s: Statement, t: Statement) {
    t == s.(predicate_ := s.predicate_.(records := t.predicate_.records)) && Same(s.predicate_, t.predicate_)
  }

  lemma ResignedRecordSet(s: Statement, t: Statement)
    requires Resigned(s, t) && (SomeUnsigned(s.predicate_.records) <==> SomeUnsigned(t.predicate_.records))
    ensures RecordSetCodes(t.predicate_) == RecordSetCodes(s.predicate_)
  {
    hide Hex, Merkle.Root, SomeUnsigned, StateOf, Merkle.LeafHash;
    var p, q := s.predicate_, t.predicate_;
    forall i | 0 <= i < |p.records|
      ensures StateOf(q.records[i]) == StateOf(p.records[i]) && SameEnvelope(p.records[i], q.records[i])
      ensures Leaf(q.records[i]) == Leaf(p.records[i])
    {
      SameRecord(p, q, i);
    }
    assert Paes(q.records) == Paes(p.records);
    SameDuplicates(p, q);
    assert SomeUndecodable(q.records) <==> SomeUndecodable(p.records);
  }

  lemma SameDuplicates(p: Predicate, q: Predicate)
    requires Same(p, q)
    requires forall i :: 0 <= i < |p.records| ==> Leaf(q.records[i]) == Leaf(p.records[i])
    ensures SomeDuplicate(q.records) <==> SomeDuplicate(p.records)
  {
    hide Leaf;
    assert forall i :: 0 <= i < |p.records| ==> SameEnvelope(p.records[i], q.records[i]);
  }

  lemma {:induction false} ResignedAttribution(p: Predicate, q: Predicate, rows: seq<Row>)
    requires Same(p, q)
    ensures AttributionCodes(q, rows) == AttributionCodes(p, rows)
  {
    hide AttributionFault;
    if rows != [] {
      SameAttribution(p, q, rows[0]);
      ResignedAttribution(p, q, rows[1..]);
    }
  }

  lemma ResignedAnyBasis(s: Statement, t: Statement)
    requires Resigned(s, t) && Readable(s.predicate_)
    ensures AnyBasisCodes(t.predicate_) == AnyBasisCodes(s.predicate_)
  {
    hide AttributionCodes, ResolvesKind, RecordKind, CleanLabel, CaughtLabel;
    var p, q := s.predicate_, t.predicate_;
    ResignedAttribution(p, q, p.rows);
    forall r | 0 <= r < |p.rows| ensures ContradictedRow(q, p.rows[r]) <==> ContradictedRow(p, p.rows[r]) {
      SameResolves(p, q, p.rows[r], KIND_INTERCEPTION);
    }
    assert CleanContradicted(q) <==> CleanContradicted(p);
    forall i | 0 <= i < |p.records| ensures OrphanedAt(q, i) <==> OrphanedAt(p, i) {
      SameRecord(p, q, i);
      assert CaughtResolves(q, p.rows, i) <==> CaughtResolves(p, p.rows, i) by {
        assert forall k :: 0 <= k < |p.rows| ==> (Resolves(q, p.rows[k], i) <==> Resolves(p, p.rows[k], i));
      }
    }
    assert Orphaned(q) <==> Orphaned(p);
  }

  lemma {:induction false} ResignedRows(s: Statement, t: Statement, n: nat, ctx: Context)
    requires Resigned(s, t) && GateReady(s.predicate_) && GateReady(t.predicate_) && n <= |s.predicate_.rows|
    ensures SubstrateRowCodes(t.predicate_, n, ctx) == SubstrateRowCodes(s.predicate_, n, ctx)
  {
    hide RowCodes, Same, RefsWellParsed, Readable;
    if n > 0 {
      ResignedRows(s, t, n - 1, ctx);
      SameRowCodes(s.predicate_, t.predicate_, s.predicate_.rows[n - 1], ctx);
    }
  }

  lemma {:induction false} ResignedCarried(p: Predicate, q: Predicate, n: nat, ctx: Context)
    requires Same(p, q) && n <= |p.records|
    ensures CarriedCodes(q, n, ctx) == CarriedCodes(p, n, ctx)
  {
    hide Defective, FailCode, RecordPayload, RecordKind;
    if n > 0 {
      ResignedCarried(p, q, n - 1, ctx);
      SameSeals(p, q, n - 1, ctx);
    }
  }

  lemma ResignedClaims(s: Statement, t: Statement, i: int, binding: string)
    requires Resigned(s, t) && Readable(s.predicate_) && InRecords(s.predicate_, i)
    ensures NamesUncaught(t.predicate_, i, binding) <==> NamesUncaught(s.predicate_, i, binding)
    ensures CoverageReadable(s.predicate_) ==> (Exceeds(t.predicate_, i, binding) <==> Exceeds(s.predicate_, i, binding))
  {
    hide ObjString, ObjStrings, RecordPayload, RecordKind, AscendingIn, Expected, CaughtLabel;
    var p, q := s.predicate_, t.predicate_;
    SameRecord(p, q, i);
    assert DeclaredIds(q) == DeclaredIds(p);
    forall ids: seq<string> ensures SomeUncaught(q, ids) <==> SomeUncaught(p, ids) {
      assert forall k :: 0 <= k < |ids| ==> (HasCaughtRow(q, ids[k]) <==> HasCaughtRow(p, ids[k]));
    }
  }

  lemma ResignedSubstrate(s: Statement, t: Statement, ctx: Context)
    requires Resigned(s, t) && Readable(s.predicate_)
    ensures SubstrateCodes(t.predicate_, ctx) == SubstrateCodes(s.predicate_, ctx)
  {
    hide WrongSet, GoodSeal, NamesUncaught, Exceeds, CarriedCodes;
    var p, q := s.predicate_, t.predicate_;
    ResignedCarried(p, q, |p.records|, ctx);
    forall i | 0 <= i < |p.records|
      ensures WrongSet(q, i, ctx.binding) <==> WrongSet(p, i, ctx.binding)
      ensures GoodSeal(q, i, ctx) <==> GoodSeal(p, i, ctx)
      ensures NamesUncaught(q, i, ctx.binding) <==> NamesUncaught(p, i, ctx.binding)
      ensures CoverageReadable(p) ==> (Exceeds(q, i, ctx.binding) <==> Exceeds(p, i, ctx.binding))
    {
      SameSeals(p, q, i, ctx);
      ResignedClaims(s, t, i, ctx.binding);
    }
    assert SomeWrongSet(q, ctx.binding) <==> SomeWrongSet(p, ctx.binding);
    assert SealPresent(q, ctx) <==> SealPresent(p, ctx);
    assert SealNamesUncaught(q, ctx.binding) <==> SealNamesUncaught(p, ctx.binding);
    assert AssessedExceeds(q, ctx.binding) <==> AssessedExceeds(p, ctx.binding);
  }

  lemma ResignedContext(s: Statement, t: Statement)
    requires Resigned(s, t)
    ensures ContextOf(t) == ContextOf(s) && Gate0Codes(t) == Gate0Codes(s) && Recomputed(t.predicate_) == Recomputed(s.predicate_)
    ensures HasSubstrateRows(t.predicate_) <==> HasSubstrateRows(s.predicate_)
  {
    hide Same, PosturePreimage, Binding.Preimage, SHA256Hex, VocabularyCodes, CorpusCodes, Partition, Expected, Distinct;
    ResignedGate0(s, t);
  }

  lemma ResignedGate0(s: Statement, t: Statement)
    requires Resigned(s, t)
    ensures Gate0Codes(t) == Gate0Codes(s)
  {
    hide Same, EnvironmentCodes, CommittedCodes, Partition, Expected, Distinct;
    forall acc: set<Code> ensures ContentCodes(t, acc) == ContentCodes(s, acc) && LayerCodes(t.predicate_, acc) == LayerCodes(s.predicate_, acc)
                                  && PresenceCodes(t, acc) == PresenceCodes(s, acc)
    {
      ResignedContent(s, t, acc);
    }
    assert EnvelopeCodes(t) == EnvelopeCodes(s);
  }

  lemma ResignedContent(s: Statement, t: Statement, acc: set<Code>)
    requires Resigned(s, t)
    ensures ContentCodes(t, acc) == ContentCodes(s, acc) && LayerCodes(t.predicate_, acc) == LayerCodes(s.predicate_, acc)
            && PresenceCodes(t, acc) == PresenceCodes(s, acc)
  {
    hide Same, Partition, Expected, Distinct, Declared, EnvironmentDigestBad, IsLowerHex64, CleanRowWithLayer, AnyVocabularyCode;
    var p, q := s.predicate_, t.predicate_;
    assert HasSubstrateRows(q) <==> HasSubstrateRows(p);
    assert BindingInputCodes(t, acc) == BindingInputCodes(s, acc);
    if IntegrityChecked(p) {
      var cov, classes := p.coverage.value, p.env.value.corpus.value.classes.value;
      assert RowsAsExpected(q, cov, classes) <==> RowsAsExpected(p, cov, classes);
      assert RowUnknown(q, classes) <==> RowUnknown(p, classes);
      assert IntegrityCodes(q, cov, classes, acc) == IntegrityCodes(p, cov, classes, acc);
      assert BindingInputCodes(t, IntegrityCodes(q, cov, classes, acc)) == BindingInputCodes(s, IntegrityCodes(p, cov, classes, acc));
    }
  }

  /** Replacing signatures, as long as an empty signatures array is neither introduced
      nor removed, leaves verdict, codes and result as they are. */
  lemma SignaturesDoNotReachValidity(s: Statement, t: Statement)
    requires Resigned(s, t) && WellParsed(s.predicate_, s.parseCodes) && WellParsed(t.predicate_, t.parseCodes)
    requires SomeUnsigned(s.predicate_.records) <==> SomeUnsigned(t.predicate_.records)
    ensures FaultCodes(t) == FaultCodes(s)
    ensures Accepts(t) <==> Accepts(s)
    ensures Recomputed(t.predicate_) == Recomputed(s.predicate_)
  {
    hide FaultCodes, Accepts, Resigned, Recomputed, WellParsed, SomeUnsigned;
    ResignedFaults(s, t);
    ResignedContext(s, t);
    AcceptsExactly(s);
    AcceptsExactly(t);
  }

  lemma ResignedFaults(s: Statement, t: Statement)
    requires Resigned(s, t) && WellParsed(s.predicate_, s.parseCodes) && WellParsed(t.predicate_, t.parseCodes)
    requires SomeUnsigned(s.predicate_.records) <==> SomeUnsigned(t.predicate_.records)
    ensures FaultCodes(t) == FaultCodes(s)
  {
    hide Gate0Codes, Gate0Ok, Gate1Ok, Gate1Codes, Resigned, Recomputed, GateReady, WellParsed, SomeUnsigned, ContextOf, HasSubstrateRows;
    Gate0Exactly(s);
    Gate0Exactly(t);
    ResignedContext(s, t);
    ResignedReady(s, t);
    if Gate0Ok(s) {
      Gate0Leaves(s);
      Gate0Leaves(t);
      ResignedGate1(s, t);
      Gate1Exactly(s);
      Gate1Exactly(t);
    }
  }

  lemma ResignedReady(s: Statement, t: Statement)
    requires Resigned(s, t)
    ensures GateReady(s.predicate_) <==> GateReady(t.predicate_)
    ensures t.predicate_.result == s.predicate_.result
  {
    hide RefsWellParsed;
  }

  lemma ResignedGate1(s: Statement, t: Statement)
    requires Resigned(s, t) && GateReady(s.predicate_) && GateReady(t.predicate_)
    requires SomeUnsigned(s.predicate_.records) <==> SomeUnsigned(t.predicate_.records)
    ensures Gate1Codes(t) == Gate1Codes(s)
  {
    hide RecordSetCodes, AnyBasisCodes, SubstrateRowCodes, SubstrateCodes, ContextOf, RefsWellParsed, HasSubstrateRows, SomeUnsigned;
    var p, q := s.predicate_, t.predicate_;
    ResignedRecordSet(s, t);
    ResignedAnyBasis(s, t);
    ResignedContext(s, t);
    ResignedRows(s, t, |p.rows|, ContextOf(s));
    ResignedSubstrate(s, t, ContextOf(s));
    assert forall r :: 0 <= r < |p.rows| ==> (Dangling(q, p.rows[r]) <==> Dangling(p, p.rows[r]));
    assert SomeDangling(q) <==> SomeDangling(p);
  }

  // ----- tiers -----

  function TierRank(t: Tier): nat {
    match t
    case TierDeclared => 0
    case TierUnattested => 0
    case TierAttested => 1
  }

  /** q carries at least p's signatures. */
  predicate MoreSigned(p: Predicate, q: Predicate) {
    Same(p, q) && forall i :: 0 <= i < |p.records| ==> EntriesKept(p.records[i], q.records[i])
  }

  predicate EntriesKept(a: Record, b: Record) {
    forall k :: 0 <= k < |a.signatures| ==> a.signatures[k] in b.signatures
  }

  lemma MoreVerifies(a: Record, b: Record, keys: seq<Key>, more: seq<Key>)
    requires SameEnvelope(a, b) && EntriesKept(a, b) && forall k :: 0 <= k < |keys| ==> keys[k] in more
    requires Verifies(a, keys)
    ensures Verifies(b, more)
  {
    hide Merkle.Pae;
    var i :| 0 <= i < |a.signatures| && SignatureVerifies(a.signatures[i], StateOf(a).pae, keys);
    var k :| 0 <= k < |keys| && ED25519_VERIFY(keys[k], StateOf(a).pae, a.signatures[i].value);
    var j :| 0 <= j < |b.signatures| && b.signatures[j] == a.signatures[i];
    var l :| 0 <= l < |more| && more[l] == keys[k];
    assert SignatureVerifies(b.signatures[j], StateOf(b).pae, more);
  }

  /** Adding keys or signature entries never lowers the tier of any row, and never
      turns a declared row into anything else. */
  lemma TiersNeverDrop(p: Predicate, q: Predicate, row: Row, ctx: Context, keys: seq<Key>, more: seq<Key>)
    requires Readable(p) && Readable(q) && MoreSigned(p, q)
    requires forall k :: 0 <= k < |keys| ==> keys[k] in more
    ensures TierRank(TierOf(p, row, ctx, keys)) <= TierRank(TierOf(q, row, ctx, more))
    ensures TierOf(p, row, ctx, keys).TierDeclared? <==> TierOf(q, row, ctx, more).TierDeclared?
  {
    hide Covering, Verifies, EntriesKept, SameEnvelope;
    if keys != [] && CoveringVerify(p, row, ctx, keys) {
      assert keys[0] in more;
      forall i | 0 <= i < |q.records| && Covering(q, row, ctx, i) ensures Verifies(q.records[i], more) {
        SameCovering(p, q, row, ctx, i);
        assert EntriesKept(p.records[i], q.records[i]) && SameEnvelope(p.records[i], q.records[i]);
        MoreVerifies(p.records[i], q.records[i], keys, more);
      }
    }
  }
}
