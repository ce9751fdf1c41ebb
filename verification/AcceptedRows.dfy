/** What a row of an accepted statement rests on, and its tier, told by the row's own
    members. */
module AcceptedRows {
  import opened Core
  import opened Statements
  import opened Payloads
  import opened Rows
  import opened Gate1
  import opened Accepted
  import opened Evaluate
  import opened Soundness
  import CoverageRules
  import Merkle

  /** What an accepted substrate row rests on, by its method and its label. */
  lemma CoveredByMethod(s: Statement, r: nat)
    requires Accepts(s) && r < |s.predicate_.rows| && s.predicate_.rows[r].basis == Some("substrate")
    ensures var p, row := s.predicate_, s.predicate_.rows[r];
            && Readable(p)
            && (row.method_ == Some("reconstructed") || row.method_ == Some("intercepted"))
            && (row.method_ == Some("reconstructed") ==> CoveredBy(p, row, ContextOf(s), "examination"))
            && (row.method_ == Some("intercepted") ==>
                  if row.containmentObserved in p.env.value.vocabulary.value.caught
                  then CoveredBy(p, row, ContextOf(s), "interception")
                  else CoveredBy(p, row, ContextOf(s), "arming") && CoveredBy(p, row, ContextOf(s), "sealed"))
  {
    hide Accepts, CoveredBy, RequiredKind, ContextOf, KindsMet, CapExceeded, Bound, Requirements, HasSubstrateRows;
    var p, row := s.predicate_, s.predicate_.rows[r];
    AcceptedRow(s, r);
    assert MethodKnown(row.method_);
    forall kind ensures RequiredKind(Voc(p), row, kind) <==>
            if row.method_ == Some("reconstructed") then kind == "examination"
            else if row.containmentObserved in p.env.value.vocabulary.value.caught then kind == "interception"
            else kind == "arming" || kind == "sealed" {
      CoverageRules.KindNeeded(p, row, kind);
    }
    CoverageRules.MethodsApart();
    if row.method_ == Some("reconstructed") {
      PassCovered(s, r, "examination");
    } else if row.containmentObserved in p.env.value.vocabulary.value.caught {
      PassCovered(s, r, "interception");
    } else {
      PassCovered(s, r, "arming");
      PassCovered(s, r, "sealed");
    }
  }

  // ----- tiers -----

  /** Some signature of the record verifies under some key, over its DSSE encoding. */
  predicate Signed(r: Record, keys: seq<Key>) {
    r.payload.Some? && exists i, k :: 0 <= i < |r.signatures| && 0 <= k < |keys| && SignedBy(r, r.signatures[i], keys[k])
  }

  predicate SignedBy(r: Record, signature: Option<bytes>, key: Key)
    requires r.payload.Some?
  {
    signature.Some? && ED25519_VERIFY(key, Merkle.Pae(r.payloadType, r.payload.value), signature.value)
  }

  lemma SignedIs(r: Record, keys: seq<Key>)
    ensures Verifies(r, keys) <==> Signed(r, keys)
  {
    hide Merkle.Pae;
    if Verifies(r, keys) {
      var i :| 0 <= i < |r.signatures| && SignatureVerifies(r.signatures[i], StateOf(r).pae, keys);
      var k :| 0 <= k < |keys| && ED25519_VERIFY(keys[k], StateOf(r).pae, r.signatures[i].value);
      assert SignedBy(r, r.signatures[i], keys[k]);
    }
    if r.payload.Some? {
      if i, k :| 0 <= i < |r.signatures| && 0 <= k < |keys| && SignedBy(r, r.signatures[i], keys[k]) {
        assert SignatureVerifies(r.signatures[i], StateOf(r).pae, keys);
      }
    }
  }

  /** The record has the kind, or one of the two kinds, that the row rests on. */
  predicate RestsOn(p: Predicate, row: Row, kind: string)
    requires Readable(p)
  {
    if row.method_ == Some("reconstructed") then kind == "examination"
    else if row.containmentObserved in p.env.value.vocabulary.value.caught then kind == "interception"
    else kind == "arming" || kind == "sealed"
  }

  /** The tier of a row of an accepted statement: declared without the substrate's basis;
      else attested when there are keys and every record the row rests on is signed under
      one of them, and unattested otherwise. */
  lemma TierPlainly(s: Statement, r: nat, keys: seq<Key>)
    requires Accepts(s) && r < |s.predicate_.rows|
    ensures Readable(s.predicate_)
    ensures var p, row := s.predicate_, s.predicate_.rows[r];
            TierOf(p, row, ContextOf(s), keys)
            == if row.basis != Some("substrate") then TierDeclared
               else if keys != [] && (forall i :: i in row.refs && 0 <= i < |p.records| && RestsOn(p, row, RecordKind(p, i)) ==>
                                        Signed(p.records[i], keys))
               then TierAttested else TierUnattested
  {
    hide Accepts, Verifies, Signed, RecordKind, RequiredKind, ContextOf, Covering, Readable;
    var p, row := s.predicate_, s.predicate_.rows[r];
    AcceptedReadable(s);
    if row.basis == Some("substrate") {
      forall i | 0 <= i < |p.records|
        ensures Verifies(p.records[i], keys) <==> Signed(p.records[i], keys)
        ensures Covering(p, row, ContextOf(s), i) <==> i in row.refs && RestsOn(p, row, RecordKind(p, i))
      {
        SignedIs(p.records[i], keys);
        CoveringExactly(s, r, i);
        CoverageRules.KindNeeded(p, row, RecordKind(p, i));
      }
    }
  }

  // ----- admission -----

  predicate HasDigest(d: DigestSet, expected: string) {
    ("sha256" in d && d["sha256"] == expected) || ("sha256" !in d && expected == "")
  }

  /** The policy expects no corpus, or the one the environment names. */
  predicate CorpusMet(p: Predicate, policy: Policy)
    requires p.env.Some?
  {
    policy.expectedCorpus == "" || (p.env.value.corpus.Some? && HasDigest(p.env.value.corpus.value.digest, policy.expectedCorpus))
  }

  predicate SubstrateMet(p: Predicate, policy: Policy)
    requires p.env.Some?
  {
    policy.expectedSubstrate == ""
    || (p.env.value.substrate.Some? && HasDigest(p.env.value.substrate.value, policy.expectedSubstrate))
  }

  /** The policy codes are those of the expectations that are not met. */
  lemma AnchorsPlainly(p: Predicate, policy: Policy)
    requires p.env.Some?
    ensures CorpusAnchorMismatch in AnchorCodes(p, policy) <==> !CorpusMet(p, policy)
    ensures SubstrateAnchorMismatch in AnchorCodes(p, policy) <==> !SubstrateMet(p, policy)
  {
  }

  /** An accepted statement is admitted exactly when the policy's expectations are met,
      and every record a substrate row rests on is signed under one of its keys. */
  lemma AdmittedPlainly(s: Statement, policy: Policy)
    requires Accepts(s)
    ensures s.predicate_.env.Some? && Readable(s.predicate_)
    ensures var p := s.predicate_;
            PolicySatisfied(p, TierColumn(s, ContextOf(s), policy.keys)) && AnchorCodes(p, policy) == {}
            <==> && CorpusMet(p, policy) && SubstrateMet(p, policy)
                 && forall r :: 0 <= r < |p.rows| && p.rows[r].basis == Some("substrate") ==>
                      RestsOnSigned(p, p.rows[r], policy.keys)
  {
    hide Accepts, AnchorCodes, ContextOf, TierOf, CorpusMet, SubstrateMet, RestsOnSigned, EnvironmentOk, EnvelopeOk, Readable;
    var p := s.predicate_;
    AcceptedReadable(s);
    assert p.env.Some? by { ReadableEnvironment(p); }
    AnchorsPlainly(p, policy);
    forall r | 0 <= r < |p.rows| && p.rows[r].basis == Some("substrate")
      ensures TierOf(p, p.rows[r], ContextOf(s), policy.keys) == TierAttested <==> RestsOnSigned(p, p.rows[r], policy.keys)
    {
      AttestedPlainly(s, r, policy.keys);
    }
    forall c ensures c in AnchorCodes(p, policy) ==> !CorpusMet(p, policy) || !SubstrateMet(p, policy) {
      assert c == CorpusAnchorMismatch || c == SubstrateAnchorMismatch;
    }
  }

  lemma ReadableEnvironment(p: Predicate)
    requires Readable(p)
    ensures p.env.Some?
  {
  }

  predicate RestsOnSigned(p: Predicate, row: Row, keys: seq<Key>)
    requires Readable(p)
  {
    keys != [] && forall i :: i in row.refs && 0 <= i < |p.records| && RestsOn(p, row, RecordKind(p, i)) ==> Signed(p.records[i], keys)
  }

  lemma AttestedPlainly(s: Statement, r: nat, keys: seq<Key>)
    requires Accepts(s) && r < |s.predicate_.rows| && s.predicate_.rows[r].basis == Some("substrate")
    ensures Readable(s.predicate_)
    ensures TierOf(s.predicate_, s.predicate_.rows[r], ContextOf(s), keys) == TierAttested
            <==> RestsOnSigned(s.predicate_, s.predicate_.rows[r], keys)
  {
    hide Accepts, TierOf, ContextOf, RestsOn, RecordKind, Signed, Readable;
    TierPlainly(s, r, keys);
  }
}
