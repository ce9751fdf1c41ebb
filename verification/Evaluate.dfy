/** Evaluate, the evidence tiers and Verify (aee/verify.go, aee/tier.go). */
module Evaluate {
  import opened Core
  import opened Codes
  import opened Statements
  import opened Gate0
  import opened Payloads
  import opened Rows
  import opened Gate1
  import opened Recompute
  import opened Accepted

  type Key = bytes

  /** ed25519.Verify(key, message, signature), uninterpreted here. */
  const ED25519_VERIFY: (Key, bytes, bytes) -> bool

  // ----- Evaluate -----

  /** The sealed EvalContext. */
  datatype EvalContext = EvalContext(s: Statement, states: seq<RecordState>, ctx: Context, result: string)

  /** What Evaluate guarantees of a context it returns. */
  ghost predicate Sealed(c: EvalContext) {
    && Accepts(c.s) && c.states == States(c.s.predicate_.records) && c.result == c.s.predicate_.result
    && (HasSubstrateRows(c.s.predicate_) ==> c.ctx == ContextOf(c.s))
  }

  /** The codes of the first gate that fails. */
  ghost function FaultCodes(s: Statement): set<Code>
    requires WellParsed(s.predicate_, s.parseCodes)
  {
    if !Gate0Ok(s) then Gate0Codes(s)
    else
      Gate0Leaves(s);
      if !Gate1Ok(s) then Gate1Codes(s)
      else With({}, Recomputed(s.predicate_) != s.predicate_.result, ResultRecomputeMismatch)
  }

  /** Acceptance is the absence of codes. */
  lemma AcceptsExactly(s: Statement)
    requires WellParsed(s.predicate_, s.parseCodes)
    ensures Accepts(s) <==> FaultCodes(s) == {}
  {
    hide Gate0Codes, Gate1Codes, Gate0Ok, Gate1Ok, Recomputed, WellParsed, GateReady;
    AcceptsMeans(s);
    Gate0Exactly(s);
    if Gate0Ok(s) {
      Gate0Leaves(s);
      Gate1Exactly(s);
    }
  }

  /** Evaluate, from the parsed statement on. */
  method RunEvaluate(s: Statement) returns (sealed: Option<EvalContext>, codes: CodeList)
    requires WellParsed(s.predicate_, s.parseCodes)
    ensures sealed.Some? <==> Accepts(s)
    ensures sealed.Some? ==> sealed.value.s == s && Sealed(sealed.value)
    ensures CodeSet(codes) == FaultCodes(s) && (sealed.Some? <==> codes == [])
  {
    hide Gate0Codes, Gate1Codes, Gate0Ok, Gate1Ok, CodeSet, Recomputed, WellParsed, GateReady, States, ContextOf, HasSubstrateRows;
    AcceptsMeans(s);
    Gate0Exactly(s);
    codes := RunGate0(s);
    if |codes| > 0 {
      return None, codes;
    }
    Gate0Leaves(s);
    Gate1Exactly(s);
    var states, ctx, gate1 := RunGate1(s);
    if |gate1| > 0 {
      return None, gate1;
    }
    assert CodeSet([]) == {};
    var got := RunRecompute(s.predicate_);
    if got != s.predicate_.result {
      codes := AppendCode([], ResultRecomputeMismatch);
      return None, codes;
    }
    return Some(EvalContext(s, states, ctx, s.predicate_.result)), [];
  }

  // ----- tiers -----

  datatype Tier = TierDeclared | TierUnattested | TierAttested

  /** One entry of a signatures array verifies under one of the keys. */
  predicate SignatureVerifies(sig: Option<bytes>, pae: bytes, keys: seq<Key>) {
    sig.Some? && exists k :: 0 <= k < |keys| && ED25519_VERIFY(keys[k], pae, sig.value)
  }

  predicate Verifies(r: Record, keys: seq<Key>) {
    r.payload.Some? && exists i :: 0 <= i < |r.signatures| && SignatureVerifies(r.signatures[i], StateOf(r).pae, keys)
  }

  /** recordVerifies. */
  method RecordVerifies(r: Record, state: RecordState, keys: seq<Key>) returns (ok: bool)
    requires state == StateOf(r)
    ensures ok == Verifies(r, keys)
  {
    hide StateOf;
    if state.payload.None? {
      assert r.payload.None? by { StatePayload(r); }
      return false;
    }
    StatePayload(r);
    for i := 0 to |r.signatures|
      invariant forall k :: 0 <= k < i ==> !SignatureVerifies(r.signatures[k], state.pae, keys)
    {
      if r.signatures[i].Some? {
        for k := 0 to |keys|
          invariant forall j :: 0 <= j < k ==> !ED25519_VERIFY(keys[j], state.pae, r.signatures[i].value)
        {
          if ED25519_VERIFY(keys[k], state.pae, r.signatures[i].value) {
            assert SignatureVerifies(r.signatures[i], state.pae, keys);
            return true;
          }
        }
      }
    }
    return false;
  }

  lemma StatePayload(r: Record)
    ensures StateOf(r).payload == r.payload
  {
  }

  /** Every record that covers the row verifies. */
  predicate CoveringVerify(p: Predicate, row: Row, ctx: Context, keys: seq<Key>)
    requires Readable(p)
  {
    forall i :: 0 <= i < |p.records| && Covering(p, row, ctx, i) ==> Verifies(p.records[i], keys)
  }

  /** The tier of a row under a list of keys; no policy is the empty list. */
  function TierOf(p: Predicate, row: Row, ctx: Context, keys: seq<Key>): Tier
    requires Readable(p)
  {
    if !IsSubstrate(row) then TierDeclared
    else if keys != [] && CoveringVerify(p, row, ctx, keys) then TierAttested
    else TierUnattested
  }

  /** On a sealed context the check that covers a row again finds no code. */
  lemma SealedRow(c: EvalContext, i: nat)
    requires Sealed(c) && i < |c.s.predicate_.rows| && IsSubstrate(c.s.predicate_.rows[i])
    ensures GateReady(c.s.predicate_) && RowOk(c.s.predicate_, c.s.predicate_.rows[i], c.ctx)
    ensures RowValid(c.s.predicate_, c.s.predicate_.rows[i], c.ctx)
  {
    hide RowOk, RowValid, Gate0Ok, RecordSetOk, AnyBasisOk, SubstrateOk, Recomputed, WellParsed, States, ContextOf, Readable, RefsWellParsed;
    AcceptsMeans(c.s);
    RowExactly(c.s.predicate_, c.s.predicate_.rows[i], c.ctx);
  }

  /** The loop over the covering records of one row. */
  method AllVerify(p: Predicate, row: Row, ctx: Context, states: seq<RecordState>, covering: seq<int>, keys: seq<Key>)
    returns (ok: bool)
    requires Readable(p) && states == States(p.records)
    requires forall i :: i in covering <==> Covering(p, row, ctx, i)
    ensures ok == CoveringVerify(p, row, ctx, keys)
  {
    hide Covering, Verifies, Readable;
    forall j | 0 <= j < |covering| ensures 0 <= covering[j] < |p.records| {
      assert covering[j] in covering;
      CoveringInRange(p, row, ctx, covering[j]);
    }
    for k := 0 to |covering|
      invariant forall j :: 0 <= j < k ==> Verifies(p.records[covering[j]], keys)
    {
      assert covering[k] in covering;
      var verified := RecordVerifies(p.records[covering[k]], states[covering[k]], keys);
      if !verified {
        return false;
      }
    }
    return true;
  }

  lemma CoveringInRange(p: Predicate, row: Row, ctx: Context, i: int)
    requires Readable(p) && Covering(p, row, ctx, i)
    ensures 0 <= i < |p.records| && i in row.refs
  {
    hide RequiredKind, Covers;
  }

  /** DeriveTiers. */
  method DeriveTiers(c: EvalContext, keys: seq<Key>) returns (tiers: array<Tier>)
    requires Sealed(c)
    ensures fresh(tiers) && tiers.Length == |c.s.predicate_.rows|
    ensures Readable(c.s.predicate_)
    ensures forall i :: 0 <= i < tiers.Length ==> tiers[i] == TierOf(c.s.predicate_, c.s.predicate_.rows[i], c.ctx, keys)
  {
    hide Sealed, RowCodes, CoveringVerify, States, CodeSet, Covering;
    var p := c.s.predicate_;
    SealedReady(c);
    tiers := new Tier[|p.rows|](_ => TierDeclared);
    for i := 0 to |p.rows|
      invariant forall k :: 0 <= k < i ==> tiers[k] == TierOf(p, p.rows[k], c.ctx, keys)
    {
      var row := p.rows[i];
      if !IsSubstrate(row) {
        tiers[i] := TierDeclared;
      } else if |keys| == 0 {
        tiers[i] := TierUnattested;
      } else {
        SealedRow(c, i);
        var rowCodes, covering := CheckSubstrateRow(p, row, c.states, c.ctx);
        assert |rowCodes| == 0;
        var verified := AllVerify(p, row, c.ctx, c.states, covering, keys);
        tiers[i] := if verified then TierAttested else TierUnattested;
      }
    }
  }

  lemma SealedReady(c: EvalContext)
    requires Sealed(c)
    ensures GateReady(c.s.predicate_) && c.states == States(c.s.predicate_.records)
  {
    hide Gate0Ok, Gate1Ok, Recomputed, WellParsed, States, ContextOf, GateReady;
    AcceptsMeans(c.s);
  }

  /** Every substrate row's covering records verify. */
  predicate AllCoveringVerify(p: Predicate, ctx: Context, keys: seq<Key>)
    requires Readable(p)
  {
    forall i :: 0 <= i < |p.rows| && IsSubstrate(p.rows[i]) ==> CoveringVerify(p, p.rows[i], ctx, keys)
  }

  /** CheckRecordSignatures: false is its error. */
  method CheckRecordSignatures(c: EvalContext, keys: seq<Key>) returns (ok: bool)
    requires Sealed(c)
    ensures Readable(c.s.predicate_) && ok == AllCoveringVerify(c.s.predicate_, c.ctx, keys)
  {
    hide Sealed, RowCodes, CoveringVerify, States, CodeSet, Covering;
    var p := c.s.predicate_;
    SealedReady(c);
    var substrate := HasSubstrate(p);
    if !substrate {
      return true;
    }
    for i := 0 to |p.rows|
      invariant forall k :: 0 <= k < i && IsSubstrate(p.rows[k]) ==> CoveringVerify(p, p.rows[k], c.ctx, keys)
    {
      if IsSubstrate(p.rows[i]) {
        SealedRow(c, i);
        var rowCodes, covering := CheckSubstrateRow(p, p.rows[i], c.states, c.ctx);
        assert |rowCodes| == 0;
        var verified := AllVerify(p, p.rows[i], c.ctx, c.states, covering, keys);
        if !verified {
          return false;
        }
      }
    }
    return true;
  }

  /** tierPolicySatisfied. */
  predicate PolicySatisfied(p: Predicate, tiers: seq<Tier>)
    requires |tiers| == |p.rows|
  {
    forall i :: 0 <= i < |p.rows| && IsSubstrate(p.rows[i]) ==> tiers[i] == TierAttested
  }

  method TierPolicySatisfied(c: EvalContext, tiers: array<Tier>) returns (ok: bool)
    requires tiers.Length == |c.s.predicate_.rows|
    ensures ok == PolicySatisfied(c.s.predicate_, tiers[..])
  {
    var rows := c.s.predicate_.rows;
    for i := 0 to |rows|
      invariant forall k :: 0 <= k < i && IsSubstrate(rows[k]) ==> tiers[k] == TierAttested
    {
      if IsSubstrate(rows[i]) && tiers[i] != TierAttested {
        return false;
      }
    }
    return true;
  }

  // ----- Verify -----

  /** ConsumerPolicy. */
  datatype Policy = Policy(keys: seq<Key>, expectedCorpus: string, expectedSubstrate: string)

  datatype PolicyCode = CorpusAnchorMismatch | SubstrateAnchorMismatch

  datatype Report = Report(
    valid: bool, codes: CodeList, result: string, tiers: seq<Tier>, policyCodes: set<PolicyCode>, admitted: bool)

  /** anchorPolicyCodes, as a set. */
  function AnchorCodes(p: Predicate, policy: Policy): set<PolicyCode>
    requires p.env.Some?
  {
    (if policy.expectedCorpus != "" && policy.expectedCorpus != CorpusSha256(p.env.value.corpus) then {CorpusAnchorMismatch} else {})
    + (if policy.expectedSubstrate != "" && policy.expectedSubstrate != RefSha256(p.env.value.substrate)
       then {SubstrateAnchorMismatch} else {})
  }

  function TierColumn(s: Statement, ctx: Context, keys: seq<Key>): (ts: seq<Tier>)
    requires Readable(s.predicate_)
    ensures |ts| == |s.predicate_.rows|
    ensures forall i :: 0 <= i < |ts| ==> ts[i] == TierOf(s.predicate_, s.predicate_.rows[i], ctx, keys)
  {
    seq(|s.predicate_.rows|, i requires 0 <= i < |s.predicate_.rows| => TierOf(s.predicate_, s.predicate_.rows[i], ctx, keys))
  }

  /** Verify, from the parsed statement on. Verdict, codes and result are stated without
      the policy: they do not depend on it. */
  method Verify(s: Statement, policy: Policy) returns (report: Report)
    requires WellParsed(s.predicate_, s.parseCodes)
    ensures report.valid <==> Accepts(s)
    ensures CodeSet(report.codes) == FaultCodes(s)
    ensures report.result == if report.valid then s.predicate_.result else ""
    ensures !report.valid ==> report.tiers == [] && !report.admitted
    ensures report.valid ==>
              && Readable(s.predicate_)
              && report.tiers == TierColumn(s, ContextOf(s), policy.keys)
              && report.policyCodes == AnchorCodes(s.predicate_, policy)
              && (report.admitted <==> PolicySatisfied(s.predicate_, report.tiers) && report.policyCodes == {})
  {
    hide Accepts, FaultCodes, CodeSet, TierOf, AnchorCodes, WellParsed, PolicySatisfied, Sealed, Readable, ContextOf, RefsWellParsed;
    var sealed, codes := RunEvaluate(s);
    if sealed.None? {
      return Report(false, codes, "", [], {}, false);
    }
    var c := sealed.value;
    SealedReady(c);
    var tiers := DeriveTiers(c, policy.keys);
    TiersOfContext(c, policy.keys, tiers[..]);
    SealedAnchors(c);
    var policyCodes := AnchorCodes(s.predicate_, policy);
    var satisfied := TierPolicySatisfied(c, tiers);
    report := Report(true, [], SealedResult(c), tiers[..], policyCodes, satisfied && policyCodes == {});
  }

  function SealedResult(c: EvalContext): (r: string)
    requires Sealed(c)
    ensures r == c.s.predicate_.result
  {
    c.result
  }

  lemma SealedAnchors(c: EvalContext)
    requires Sealed(c)
    ensures c.s.predicate_.env.Some? && Readable(c.s.predicate_) && Accepts(c.s)
    ensures WellParsed(c.s.predicate_, c.s.parseCodes) && FaultCodes(c.s) == CodeSet([])
  {
    hide Gate0Codes, Gate1Codes, WellParsed, ContextOf, CodeSet, EnvironmentOk, EnvelopeOk, RefsWellParsed;
    AcceptsMeans(c.s);
    assert CodeSet([]) == {};
  }

  /** Without a substrate row the context is not read. */
  lemma TiersOfContext(c: EvalContext, keys: seq<Key>, tiers: seq<Tier>)
    requires Sealed(c) && Readable(c.s.predicate_) && |tiers| == |c.s.predicate_.rows|
    requires forall i :: 0 <= i < |tiers| ==> tiers[i] == TierOf(c.s.predicate_, c.s.predicate_.rows[i], c.ctx, keys)
    ensures tiers == TierColumn(c.s, ContextOf(c.s), keys)
  {
    hide CoveringVerify, Accepts, States, ContextOf;
  }
}
