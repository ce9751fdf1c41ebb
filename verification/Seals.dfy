/** The requirements of aee/commitments.go that read the derived run binding: what the
    seals and the arming records of this run commit to. */
module Seals {
  import opened Core
  import opened Order
  import opened Sorting
  import opened Codec
  import opened Codes
  import opened Statements
  import opened CorpusManifest
  import opened Gate0
  import opened Payloads
  import opened Rows
  import opened RecordSet
  import opened Commitments
  import Merkle

  // ----- the observed set -----

  predicate ObservedKind(kind: string) {
    kind == KIND_INTERCEPTION || kind == KIND_EXAMINATION
  }

  /** The hexadecimal leaf a record contributes to the tree. */
  function LeafHex(r: Record): (h: string)
    ensures HexString(h)
  {
    var h := Hex(Leaf(r));
    forall i | 0 <= i < |h| ensures IsLowerHexDigit(h[i]) {
      assert h[i] in h;
    }
    h
  }

  /** The leaves of the interceptions and examinations among the first n records, each
      at its first occurrence. */
  function Observed(p: Predicate, n: nat): (ls: seq<string>)
    requires n <= |p.records|
    ensures forall i :: 0 <= i < |ls| ==> HexString(ls[i])
  {
    if n == 0 then []
    else
      var before := Observed(p, n - 1);
      var leaf := LeafHex(p.records[n - 1]);
      if ObservedKind(RecordKind(p, n - 1)) && leaf !in before then before + [leaf] else before
  }

  /** A leaf of the observed set. */
  predicate IsObserved(p: Predicate, leaf: string) {
    exists i :: 0 <= i < |p.records| && ObservedKind(RecordKind(p, i)) && LeafHex(p.records[i]) == leaf
  }

  /** observedSetDigest: the digest of the ascending array of the observed leaves. */
  function ObservedSetDigest(p: Predicate): string {
    SHA256Hex(StringArrayText(Sort(Observed(p, |p.records|), Self)))
  }

  lemma {:induction false} ObservedMembers(p: Predicate, n: nat)
    requires n <= |p.records|
    ensures Distinct(Observed(p, n))
    ensures forall leaf :: leaf in Observed(p, n) <==>
              exists i :: 0 <= i < n && ObservedKind(RecordKind(p, i)) && LeafHex(p.records[i]) == leaf
  {
    hide RecordKind, ObservedKind, LeafHex;
    if n > 0 {
      ObservedMembers(p, n - 1);
    }
  }

  /** On hexadecimal strings byte order is UTF-16 order, so sort.Strings sorts by code
      units. */
  lemma HexOrdersAgree(a: string, b: string)
    requires HexString(a) && HexString(b)
    ensures ByteLess(a, b) == Utf16Less(a, b)
  {
    ByteOrderIsPointOrder(a, b);
    BmpOrdersCoincide(a, b);
  }

  lemma HexSortsAlike(ls: seq<string>)
    requires forall i :: 0 <= i < |ls| ==> HexString(ls[i])
    ensures SortBy(ls, Self, ByteLess) == Sort(ls, Self)
  {
    hide HexString, ByteLess, Utf16Less;
    forall i | 0 <= i < |ls| ensures Agree(ls[i], ls, Self, ByteLess, Utf16Less) {
      forall j | 0 <= j < |ls| ensures ByteLess(Self(ls[i]), Self(ls[j])) == Utf16Less(Self(ls[i]), Self(ls[j])) {
        HexOrdersAgree(ls[i], ls[j]);
      }
    }
    OrdersSortAlike(ls, Self, ByteLess, Utf16Less);
  }

  method ComputeObservedSet(p: Predicate, states: seq<RecordState>, kinds: seq<string>) returns (digest: string)
    requires states == States(p.records) && KindsOf(p, kinds)
    ensures digest == ObservedSetDigest(p)
  {
    hide RecordKind, StringArrayText, SHA256Hex, SortBy, Hex;
    var seen: set<string>, leaves: seq<string> := {}, [];
    for i := 0 to |p.records|
      invariant leaves == Observed(p, i) && forall x :: x in seen <==> x in leaves
    {
      if kinds[i] == KIND_INTERCEPTION || kinds[i] == KIND_EXAMINATION {
        var leaf := Hex(Merkle.LeafHash(states[i].pae));
        assert leaf == LeafHex(p.records[i]);
        if leaf !in seen {
          seen, leaves := seen + {leaf}, leaves + [leaf];
        }
      }
    }
    HexSortsAlike(leaves);
    var sorted := SortBy(leaves, Self, ByteLess);
    var buf := new Buffer();
    AppendStringArray(buf, sorted);
    assert buf.data == StringArrayText(sorted);
    digest := SHA256Hex(buf.data);
  }

  // ----- the seals -----

  /** A record of the kind that names this run, whatever else is wrong with it. */
  predicate Claims(p: Predicate, i: int, kind: string, binding: string)
    requires InRecords(p, i)
  {
    RecordKind(p, i) == kind && ObjString(RecordPayload(p, i), RUN_BINDING) == Some(binding)
  }

  predicate WrongSet(p: Predicate, i: int, binding: string)
    requires InRecords(p, i)
  {
    var got := ObjString(RecordPayload(p, i), OBSERVED_SET);
    Claims(p, i, KIND_SEALED, binding) && got.Some? && IsLowerHex64(got.value) && got.value != ObservedSetDigest(p)
  }

  predicate SomeWrongSet(p: Predicate, binding: string) {
    exists i :: 0 <= i < |p.records| && WrongSet(p, i, binding)
  }

  /** sealsCommitToCarriedSet; the recompute is made at most once. */
  method SealsCommitToCarriedSet(p: Predicate, states: seq<RecordState>, kinds: seq<string>, binding: string)
    returns (codes: CodeList)
    requires states == States(p.records) && KindsOf(p, kinds)
    ensures CodeSet(codes) == With({}, SomeWrongSet(p, binding), ObservedSetMismatch)
  {
    hide RecordKind, RecordPayload, ObjString, ObservedSetDigest, CodeSet, IsLowerHex64;
    assert CodeSet([]) == {};
    var want: Option<string> := None;
    for i := 0 to |p.records|
      invariant forall k :: 0 <= k < i ==> !WrongSet(p, k, binding)
      invariant want.Some? ==> want.value == ObservedSetDigest(p)
    {
      if kinds[i] == KIND_SEALED {
        var obj := ReadObject(p, states, i);
        if ObjString(obj, RUN_BINDING) == Some(binding) {
          var got := ObjString(obj, OBSERVED_SET);
          if got.Some? && IsLowerHex64(got.value) {
            if want.None? {
              var digest := ComputeObservedSet(p, states, kinds);
              want := Some(digest);
            }
            if got.value != want.value {
              assert WrongSet(p, i, binding);
              codes := AppendCode([], ObservedSetMismatch);
              return;
            }
          }
        }
      }
    }
    codes := [];
  }

  /** A bound seal that meets its constraints, judged without a row. */
  predicate GoodSeal(p: Predicate, i: int, ctx: Context)
    requires InRecords(p, i)
  {
    RecordKind(p, i) == KIND_SEALED && Bound(p.records[i], ctx.binding) && Covers(p, i, [], ctx.issuedAt)
  }

  predicate SealPresent(p: Predicate, ctx: Context) {
    exists i :: 0 <= i < |p.records| && GoodSeal(p, i, ctx)
  }

  /** Evaluate record i's kind as the statement-level rules do, with no posture
      claims. */
  method EvaluateRecord(p: Predicate, states: seq<RecordState>, i: int, ctx: Context) returns (bound: bool, ev: Eval)
    requires states == States(p.records) && InRecords(p, i)
    ensures bound <==> Bound(p.records[i], ctx.binding)
    ensures bound ==> EvalOf(ev, p, i, [], ctx.issuedAt)
  {
    hide AnalysisOf, PayloadCodes, RecordKind, RecordMethod, RecordPayload, EvalOf, EvaluateKind, DeclaredIds, StateOf;
    ev := Eval("", "", false, None, None);
    var a := AnalyzePayload(p.records[i], states[i], ctx.binding);
    AnalysisCodes(a, p.records[i], ctx.binding);
    bound := |a.codes| == 0;
    if bound {
      BoundAnalysis(a, p, i, ctx.binding);
      AnalysisEvaluates(a, p, i, [], ctx.issuedAt);
      ev := EvaluateKind(a, PinnedPosture(p), [], ctx.issuedAt, DeclaredIds(p));
    }
  }

  /** sealedRecordPresent. */
  method SealedRecordPresent(p: Predicate, states: seq<RecordState>, kinds: seq<string>, ctx: Context)
    returns (codes: CodeList)
    requires states == States(p.records) && KindsOf(p, kinds) && HasSubstrateRows(p)
    ensures CodeSet(codes) == With({}, !SealPresent(p, ctx), SealedRecordAbsent)
  {
    hide RecordKind, RecordMethod, RecordPayload, Bound, Covers, CodeSet, HasSubstrateRows, States;
    assert CodeSet([]) == {};
    for i := 0 to |p.records|
      invariant forall k :: 0 <= k < i ==> !GoodSeal(p, k, ctx)
    {
      if kinds[i] == KIND_SEALED {
        var bound, ev := EvaluateRecord(p, states, i, ctx);
        if bound && ev.valid {
          assert GoodSeal(p, i, ctx);
          return [];
        }
      }
    }
    codes := AppendCode([], SealedRecordAbsent);
  }

  // ----- every carried record of this run -----

  /** A bound record of a covering kind whose constraints are not met. */
  predicate Defective(p: Predicate, i: int, ctx: Context)
    requires InRecords(p, i)
  {
    IsCoveringKind(RecordKind(p, i)) && Bound(p.records[i], ctx.binding) && !Covers(p, i, [], ctx.issuedAt)
  }

  function CarriedCodes(p: Predicate, n: nat, ctx: Context): set<Code>
    requires n <= |p.records|
  {
    if n == 0 then {}
    else With(CarriedCodes(p, n - 1, ctx), Defective(p, n - 1, ctx), FailCode(RecordPayload(p, n - 1), RecordKind(p, n - 1)))
  }

  lemma {:induction false} NoneDefective(p: Predicate, n: nat, ctx: Context)
    requires n <= |p.records|
    ensures CarriedCodes(p, n, ctx) == {} <==> forall i :: 0 <= i < n ==> !Defective(p, i, ctx)
  {
    hide Defective;
    if n > 0 {
      NoneDefective(p, n - 1, ctx);
    }
  }

  /** carriedRecordsCover. */
  method CarriedRecordsCover(p: Predicate, states: seq<RecordState>, kinds: seq<string>, ctx: Context)
    returns (codes: CodeList)
    requires states == States(p.records) && KindsOf(p, kinds) && HasSubstrateRows(p)
    ensures CodeSet(codes) == CarriedCodes(p, |p.records|, ctx)
  {
    hide RecordKind, RecordMethod, RecordPayload, Bound, Covers, CodeSet, HasSubstrateRows, States, FailCode, IsCoveringKind;
    codes := [];
    assert CodeSet([]) == {};
    for i := 0 to |p.records|
      invariant CodeSet(codes) == CarriedCodes(p, i, ctx)
    {
      if IsCoveringKind(kinds[i]) {
        var bound, ev := EvaluateRecord(p, states, i, ctx);
        if bound && !ev.valid {
          codes := AppendCode(codes, ev.failCode.value);
        }
      }
    }
  }

  // ----- attack identifiers -----

  predicate HasCaughtRow(p: Predicate, id: string)
    requires Readable(p)
  {
    exists i :: 0 <= i < |p.rows| && p.rows[i].attackId == id && CaughtLabel(Voc(p), p.rows[i].containmentObserved)
  }

  predicate SomeUncaught(p: Predicate, ids: seq<string>)
    requires Readable(p)
  {
    exists k :: 0 <= k < |ids| && !HasCaughtRow(p, ids[k])
  }

  /** A seal of this run whose array, where well formed, names an attack no row
      caught. */
  predicate NamesUncaught(p: Predicate, i: int, binding: string)
    requires Readable(p) && InRecords(p, i)
  {
    var ids := ObjStrings(RecordPayload(p, i), OBSERVED_ATTACKS);
    Claims(p, i, KIND_SEALED, binding) && ids.Some? && AscendingIn(ids.value, DeclaredIds(p)) && SomeUncaught(p, ids.value)
  }

  predicate SealNamesUncaught(p: Predicate, binding: string)
    requires Readable(p)
  {
    exists i :: 0 <= i < |p.records| && NamesUncaught(p, i, binding)
  }

  method CaughtIds(p: Predicate) returns (ids: set<string>)
    requires Readable(p)
    ensures forall id :: id in ids <==> HasCaughtRow(p, id)
  {
    hide CaughtLabel;
    ids := {};
    for i := 0 to |p.rows|
      invariant forall id :: id in ids <==>
        exists k :: 0 <= k < i && p.rows[k].attackId == id && CaughtLabel(Voc(p), p.rows[k].containmentObserved)
    {
      if CaughtLabel(Voc(p), p.rows[i].containmentObserved) {
        ids := ids + {p.rows[i].attackId};
      }
    }
  }

  /** sealNamedAttacksCaught. */
  method SealNamedAttacksCaught(p: Predicate, states: seq<RecordState>, kinds: seq<string>, binding: string)
    returns (codes: CodeList)
    requires Readable(p) && states == States(p.records) && KindsOf(p, kinds)
    ensures CodeSet(codes) == With({}, SealNamesUncaught(p, binding), ObservedAttackUncaught)
  {
    hide RecordKind, RecordPayload, ObjString, ObjStrings, CodeSet, HasCaughtRow, AscendingIn, DeclaredIds;
    assert CodeSet([]) == {};
    var caughtIds := CaughtIds(p);
    for i := 0 to |p.records|
      invariant forall k :: 0 <= k < i ==> !NamesUncaught(p, k, binding)
    {
      if kinds[i] == KIND_SEALED {
        var obj := ReadObject(p, states, i);
        if ObjString(obj, RUN_BINDING) == Some(binding) {
          var ids := ObjStrings(obj, OBSERVED_ATTACKS);
          if ids.Some? && AscendingIn(ids.value, DeclaredIds(p)) {
            for k := 0 to |ids.value|
              invariant forall j :: 0 <= j < k ==> HasCaughtRow(p, ids.value[j])
            {
              if ids.value[k] !in caughtIds {
                assert NamesUncaught(p, i, binding);
                codes := AppendCode([], ObservedAttackUncaught);
                return;
              }
            }
          }
        }
      }
    }
    codes := [];
  }

  predicate CoverageReadable(p: Predicate) {
    p.coverage.Some? && p.env.Some? && p.env.value.corpus.Some?
  }

  ghost predicate LeavesOut(p: Predicate, ids: seq<string>)
    requires CoverageReadable(p)
  {
    exists id: string :: Expected(p.coverage.value, ClassesOf(p.env.value.corpus.value), id) && id !in ids
  }

  /** An arming record of this run whose array, where well formed, leaves out an attack
      of an assessed class. */
  ghost predicate Exceeds(p: Predicate, i: int, binding: string)
    requires CoverageReadable(p) && InRecords(p, i)
  {
    var ids := ObjStrings(RecordPayload(p, i), ASSESSED_ATTACKS);
    Claims(p, i, KIND_ARMING, binding) && ids.Some? && AscendingIn(ids.value, DeclaredIds(p)) && LeavesOut(p, ids.value)
  }

  ghost predicate AssessedExceeds(p: Predicate, binding: string) {
    CoverageReadable(p) && exists i :: 0 <= i < |p.records| && Exceeds(p, i, binding)
  }

  /** assessedSetDeclared. */
  method AssessedSetDeclared(p: Predicate, states: seq<RecordState>, kinds: seq<string>, binding: string)
    returns (codes: CodeList)
    requires states == States(p.records) && KindsOf(p, kinds)
    ensures CodeSet(codes) == With({}, AssessedExceeds(p, binding), AssessedSetExceedsDeclaration)
  {
    hide RecordKind, RecordPayload, ObjString, ObjStrings, CodeSet, AscendingIn, DeclaredIds, Expected;
    assert CodeSet([]) == {};
    if !CoverageReadable(p) {
      return [];
    }
    var assessed := ExpectedIds(p.coverage.value, ClassesOf(p.env.value.corpus.value));
    for i := 0 to |p.records|
      invariant forall k :: 0 <= k < i ==> !Exceeds(p, k, binding)
    {
      if kinds[i] == KIND_ARMING {
        var obj := ReadObject(p, states, i);
        if ObjString(obj, RUN_BINDING) == Some(binding) {
          var ids := ObjStrings(obj, ASSESSED_ATTACKS);
          if ids.Some? && AscendingIn(ids.value, DeclaredIds(p)) {
            LeftOut(p, assessed, ids.value);
            if !(assessed <= StringSet(ids.value)) {
              assert Exceeds(p, i, binding);
              codes := AppendCode([], AssessedSetExceedsDeclaration);
              return;
            }
          }
        }
      }
    }
    codes := [];
  }

  lemma LeftOut(p: Predicate, assessed: set<string>, ids: seq<string>)
    requires CoverageReadable(p)
    requires forall id :: id in assessed <==> Expected(p.coverage.value, ClassesOf(p.env.value.corpus.value), id)
    ensures assessed <= StringSet(ids) <==> !LeavesOut(p, ids)
  {
    hide Expected;
  }

  // ----- together -----

  /** gate1CommitmentsSubstrate. */
  ghost function SubstrateCodes(p: Predicate, ctx: Context): set<Code>
    requires Readable(p)
  {
    if NoRecords(p) then {}
    else
      With(With(Join(With(With({}, SomeWrongSet(p, ctx.binding), ObservedSetMismatch),
        !SealPresent(p, ctx), SealedRecordAbsent),
        CarriedCodes(p, |p.records|, ctx)),
        SealNamesUncaught(p, ctx.binding), ObservedAttackUncaught),
        AssessedExceeds(p, ctx.binding), AssessedSetExceedsDeclaration)
  }

  method CommitmentsSubstrate(p: Predicate, states: seq<RecordState>, ctx: Context) returns (codes: CodeList)
    requires Readable(p) && states == States(p.records) && HasSubstrateRows(p)
    ensures CodeSet(codes) == SubstrateCodes(p, ctx)
  {
    hide CodeSet, SomeWrongSet, SealPresent, SealNamesUncaught, AssessedExceeds, CarriedCodes, HasSubstrateRows, KindsOf, States;
    if !p.recordsPresent || |p.records| == 0 {
      assert CodeSet([]) == {};
      return [];
    }
    var kinds := RecordKinds(p, states);
    codes := SealsCommitToCarriedSet(p, states, kinds, ctx.binding);
    var absent := SealedRecordPresent(p, states, kinds, ctx);
    codes := AppendCodes(codes, absent);
    var carried := CarriedRecordsCover(p, states, kinds, ctx);
    codes := AppendCodes(codes, carried);
    var uncaught := SealNamedAttacksCaught(p, states, kinds, ctx.binding);
    codes := AppendCodes(codes, uncaught);
    var exceeds := AssessedSetDeclared(p, states, kinds, ctx.binding);
    codes := AppendCodes(codes, exceeds);
  }
}
