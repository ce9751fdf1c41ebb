/** One substrate row of GATE 1 (checkSubstrateRow in aee/validity.go): which codes it
    raises, and which records cover it. */
module Rows {
  import opened Core
  import opened Json
  import opened Codes
  import opened Statements
  import opened CorpusManifest
  import opened Gate0
  import opened Payloads

  /** What the gate has derived before it looks at a row: the two inputs that do not
      come from the row. */
  datatype Context = Context(binding: string, issuedAt: int)

  predicate Readable(p: Predicate) {
    p.env.Some? && p.env.value.vocabulary.Some?
  }

  function Voc(p: Predicate): Vocabulary
    requires Readable(p)
  {
    p.env.value.vocabulary.value
  }

  function PinnedPosture(p: Predicate): string {
    if p.env.Some? then PostureSha256(p.env.value.networkPosture) else ""
  }

  /** declaredAttackIDs. */
  function DeclaredIds(p: Predicate): (ids: set<string>)
  {
    if p.env.Some? && p.env.value.corpus.Some? then
      var classes := ClassesOf(p.env.value.corpus.value);
      set c, id | c in classes && id in classes[c] :: id
    else {}
  }

  // ----- shape -----

  predicate MethodKnown(m: Option<string>) {
    m == Some(METHOD_INTERCEPTED) || m == Some(METHOD_RECONSTRUCTED)
  }

  predicate AttributionKnown(a: Option<string>) {
    a == Some(ATTRIBUTION_PINNED) || a == Some(ATTRIBUTION_PAIRED)
  }

  /** rowFailsClosed: one of the closed vocabularies does not classify the row. */
  predicate FailsClosed(v: Vocabulary, row: Row) {
    || (!CaughtLabel(v, row.containmentObserved) && !CleanLabel(v, row.containmentObserved))
    || !MethodKnown(row.method_) || !AttributionKnown(row.attribution)
  }

  predicate OutOfRange(p: Predicate, row: Row) {
    exists i :: 0 <= i < |row.refs| && row.refs[i] >= |p.records|
  }

  /** The first test the row's own members fail. */
  function ShapeCode(p: Predicate, row: Row): Option<Code>
    requires Readable(p)
  {
    if FailsClosed(Voc(p), row) then Some(FailClosedSubstrateRow)
    else if !row.refsPresent then Some(RefsEmpty)
    else if row.refsErr then Some(RefMalformed)
    else if row.refs == [] then Some(RefsEmpty)
    else if OutOfRange(p, row) then Some(RefOutOfRange)
    else None
  }

  /** Past the shape tests every index names a record. */
  predicate InRange(p: Predicate, refs: seq<int>) {
    forall i :: 0 <= i < |refs| ==> 0 <= refs[i] < |p.records|
  }

  /** The indexes of a row in order of first occurrence. */
  function Unique(refs: seq<int>): (u: seq<int>)
    ensures forall i :: i in u <==> i in refs
    ensures forall i, j :: 0 <= i < j < |u| ==> u[i] != u[j]
    ensures refs != [] ==> u != []
  {
    if refs == [] then []
    else
      var init, last := refs[..|refs| - 1], refs[|refs| - 1];
      assert refs == init + [last];
      var u := Unique(init);
      if last in u then u else u + [last]
  }

  lemma UniqueInRange(p: Predicate, row: Row)
    requires RefsWellParsed(row) && !OutOfRange(p, row)
    ensures InRange(p, row.refs) && InRange(p, Unique(row.refs))
  {
    var u := Unique(row.refs);
    forall i | 0 <= i < |u| ensures 0 <= u[i] < |p.records| {
      assert u[i] in row.refs;
    }
  }

  // ----- the records a row resolves -----

  function RecordPayload(p: Predicate, i: int): Value
    requires 0 <= i < |p.records|
  {
    var v := PayloadObject(p.records[i]);
    if v.Some? then v.value else Null
  }

  function RecordKind(p: Predicate, i: int): string
    requires 0 <= i < |p.records|
  {
    TextMember(RecordPayload(p, i), KIND)
  }

  function RecordMethod(p: Predicate, i: int): string
    requires 0 <= i < |p.records|
  {
    TextMember(RecordPayload(p, i), METHOD)
  }

  /** The codes of the payloads a list of indexes resolves. */
  function PayloadFaults(p: Predicate, refs: seq<int>, binding: string): set<Code>
    requires InRange(p, refs)
  {
    if refs == [] then {}
    else Join(PayloadFaults(p, refs[..|refs| - 1], binding), PayloadCodes(p.records[refs[|refs| - 1]], binding))
  }

  /** The posture claims of the arming records among them. */
  function ArmingPostures(p: Predicate, refs: seq<int>): seq<string>
    requires InRange(p, refs)
  {
    if refs == [] then []
    else
      var i := refs[|refs| - 1];
      var posture := ObjString(RecordPayload(p, i), POSTURE_DIGEST);
      ArmingPostures(p, refs[..|refs| - 1])
      + if RecordKind(p, i) == KIND_ARMING && posture.Some? then [posture.value] else []
  }

  /** Record i satisfies its kind's constraints under the given posture claims. */
  predicate Covers(p: Predicate, i: int, postures: seq<string>, issuedAt: int)
    requires 0 <= i < |p.records|
  {
    KindOk(RecordPayload(p, i), RecordKind(p, i), RecordMethod(p, i), PinnedPosture(p), postures, issuedAt, DeclaredIds(p))
  }

  // ----- class match -----

  datatype Requirement = Requirement(kind: string, generic: Code)

  /** The kinds a row needs covered, by its method and its label. */
  function Requirements(v: Vocabulary, row: Row): (reqs: seq<Requirement>)
    ensures 1 <= |reqs| <= 2
    ensures |reqs| == 2 ==> reqs[0].kind != reqs[1].kind
    ensures forall k :: 0 <= k < |reqs| ==> IsCoveringKind(reqs[k].kind)
  {
    if row.method_ == Some(METHOD_RECONSTRUCTED) then [Requirement(KIND_EXAMINATION, ReconstructedRowUncovered)]
    else if CaughtLabel(v, row.containmentObserved) then [Requirement(KIND_INTERCEPTION, CaughtRowUncovered)]
    else
      assert KIND_ARMING[0] != KIND_SEALED[0];
      [Requirement(KIND_ARMING, CleanRowUncovered), Requirement(KIND_SEALED, CleanRowUncovered)]
  }

  /** Some resolved record has the kind and meets its constraints. */
  predicate Met(p: Predicate, refs: seq<int>, kind: string, postures: seq<string>, issuedAt: int)
    requires InRange(p, refs)
  {
    exists k :: 0 <= k < |refs| && RecordKind(p, refs[k]) == kind && Covers(p, refs[k], postures, issuedAt)
  }

  /** The code of the first record of the kind, in reference order. */
  function FirstOfKind(p: Predicate, refs: seq<int>, kind: string): Option<Code>
    requires InRange(p, refs)
  {
    if refs == [] then None
    else
      var before := FirstOfKind(p, refs[..|refs| - 1], kind);
      var i := refs[|refs| - 1];
      if before.Some? then before
      else if RecordKind(p, i) == kind then Some(FailCode(RecordPayload(p, i), kind))
      else None
  }

  /** The code of the first record whose kind covers nothing. */
  function FirstIdle(p: Predicate, refs: seq<int>): Option<Code>
    requires InRange(p, refs)
  {
    if refs == [] then None
    else
      var before := FirstIdle(p, refs[..|refs| - 1]);
      if before.Some? then before else IdleCode(RecordKind(p, refs[|refs| - 1]))
  }

  /** What an unmet requirement reports: a record of the right kind that fails, else a
      record that never covers, else the generic code. */
  function UnmetCode(p: Predicate, refs: seq<int>, req: Requirement): Code
    requires InRange(p, refs)
  {
    var fail, idle := FirstOfKind(p, refs, req.kind), FirstIdle(p, refs);
    if fail.Some? then fail.value else if idle.Some? then idle.value else req.generic
  }

  function ClassCodes(p: Predicate, row: Row, refs: seq<int>, postures: seq<string>, issuedAt: int): set<Code>
    requires Readable(p) && InRange(p, refs)
  {
    var reqs := Requirements(Voc(p), row);
    var first := With({}, !Met(p, refs, reqs[0].kind, postures, issuedAt), UnmetCode(p, refs, reqs[0]));
    if |reqs| == 1 then first
    else With(first, !Met(p, refs, reqs[1].kind, postures, issuedAt), UnmetCode(p, refs, reqs[1]))
  }

  predicate RequiredKind(v: Vocabulary, row: Row, kind: string) {
    exists k :: 0 <= k < |Requirements(v, row)| && Requirements(v, row)[k].kind == kind
  }

  /** Record i covers the row. */
  predicate IsCovering(p: Predicate, row: Row, i: int, postures: seq<string>, issuedAt: int)
    requires Readable(p) && InRange(p, row.refs)
  {
    i in row.refs && RequiredKind(Voc(p), row, RecordKind(p, i)) && Covers(p, i, postures, issuedAt)
  }

  /** An intercepted row resting on a covering record that was reconstructed. */
  predicate CapExceeded(p: Predicate, row: Row, postures: seq<string>, issuedAt: int)
    requires Readable(p) && InRange(p, row.refs)
  {
    row.method_ == Some(METHOD_INTERCEPTED)
    && exists k :: 0 <= k < |row.refs| && IsCovering(p, row, row.refs[k], postures, issuedAt)
                   && RecordMethod(p, row.refs[k]) == METHOD_RECONSTRUCTED
  }

  /** The codes of a row: those of the first stage that raises any. */
  function RowCodes(p: Predicate, row: Row, ctx: Context): set<Code>
    requires Readable(p) && RefsWellParsed(row)
  {
    var shape := ShapeCode(p, row);
    if shape.Some? then With({}, true, shape.value)
    else
      UniqueInRange(p, row);
      var u := Unique(row.refs);
      var payloads := PayloadFaults(p, u, ctx.binding);
      if payloads != {} then payloads
      else
        var postures := ArmingPostures(p, u);
        var classes := ClassCodes(p, row, u, postures, ctx.issuedAt);
        if classes != {} then classes
        else With({}, CapExceeded(p, row, postures, ctx.issuedAt), MethodCapExceeded)
  }

  /** The row is valid. */
  predicate RowOk(p: Predicate, row: Row, ctx: Context)
    requires Readable(p) && RefsWellParsed(row)
  {
    RowCodes(p, row, ctx) == {}
  }

  // ----- the check as it runs -----

  method UniqueRefs(p: Predicate, row: Row) returns (unique: seq<int>, codes: CodeList)
    requires RefsWellParsed(row)
    ensures CodeSet(codes) == With({}, OutOfRange(p, row), RefOutOfRange)
    ensures codes == [] ==> unique == Unique(row.refs)
  {
    hide CodeSet;
    unique, codes := [], [];
    var seen: set<int> := {};
    assert row.refs[..0] == [];
    for i := 0 to |row.refs|
      invariant CodeSet(codes) == With({}, exists k :: 0 <= k < i && row.refs[k] >= |p.records|, RefOutOfRange)
      invariant codes == [] ==> unique == Unique(row.refs[..i]) && forall x :: x in seen <==> x in unique
    {
      var idx := row.refs[i];
      assert row.refs[..i + 1][..i] == row.refs[..i];
      if idx >= |p.records| {
        codes := AppendCode(codes, RefOutOfRange);
      } else if idx !in seen {
        seen, unique := seen + {idx}, unique + [idx];
      }
    }
    assert row.refs[..|row.refs|] == row.refs;
  }

  method AnalyzeRefs(p: Predicate, u: seq<int>, states: seq<RecordState>, binding: string)
    returns (analyses: map<int, Analysis>, codes: CodeList)
    requires InRange(p, u) && states == States(p.records)
    ensures CodeSet(codes) == PayloadFaults(p, u, binding)
    ensures forall i :: i in u ==> i in analyses && AnalysisOf(analyses[i], p.records[i], binding)
  {
    hide AnalysisOf, PayloadCodes, CodeSet;
    analyses, codes := map[], [];
    assert CodeSet([]) == {};
    for k := 0 to |u|
      invariant CodeSet(codes) == PayloadFaults(p, u[..k], binding)
      invariant forall j :: 0 <= j < k ==> u[j] in analyses && AnalysisOf(analyses[u[j]], p.records[u[j]], binding)
    {
      assert u[..k + 1][..k] == u[..k];
      var a := AnalyzePayload(p.records[u[k]], states[u[k]], binding);
      analyses := analyses[u[k] := a];
      codes := AppendCodes(codes, a.codes);
      AnalysisCodes(a, p.records[u[k]], binding);
    }
    assert u[..|u|] == u;
  }

  lemma AnalysisCodes(a: Analysis, r: Record, binding: string)
    requires AnalysisOf(a, r, binding)
    ensures CodeSet(a.codes) == PayloadCodes(r, binding)
  {
  }

  /** No payload fault: every resolved record is bound. */
  lemma {:induction false} NoFaults(p: Predicate, refs: seq<int>, binding: string)
    requires InRange(p, refs)
    ensures PayloadFaults(p, refs, binding) == {} <==> forall i :: 0 <= i < |refs| ==> Bound(p.records[refs[i]], binding)
  {
    hide PayloadCodes;
    if refs != [] {
      NoFaults(p, refs[..|refs| - 1], binding);
    }
  }

  /** What the evaluation of record i says. */
  predicate EvalOf(ev: Eval, p: Predicate, i: int, postures: seq<string>, issuedAt: int)
    requires 0 <= i < |p.records|
  {
    && ev.kind == RecordKind(p, i) && ev.method_ == RecordMethod(p, i)
    && (ev.valid <==> Covers(p, i, postures, issuedAt))
    && ev.idleCode == IdleCode(RecordKind(p, i))
    && (IsCoveringKind(ev.kind) ==> ev.failCode == Some(FailCode(RecordPayload(p, i), ev.kind)))
  }

  predicate Evaluated(evals: map<int, Eval>, p: Predicate, u: seq<int>, postures: seq<string>, issuedAt: int)
    requires InRange(p, u)
  {
    forall k :: 0 <= k < |u| ==> u[k] in evals && EvalOf(evals[u[k]], p, u[k], postures, issuedAt)
  }

  /** The analysis of a bound record carries its payload, kind and method. */
  lemma BoundAnalysis(a: Analysis, p: Predicate, i: int, binding: string)
    requires 0 <= i < |p.records| && AnalysisOf(a, p.records[i], binding) && Bound(p.records[i], binding)
    ensures a.codes == [] && a.obj == RecordPayload(p, i) && a.kind == RecordKind(p, i) && a.method_ == RecordMethod(p, i)
  {
    hide PayloadCodes, PayloadObject, TextMember;
  }

  lemma AnalysisEvaluates(a: Analysis, p: Predicate, i: int, postures: seq<string>, issuedAt: int)
    requires 0 <= i < |p.records|
    requires a.obj == RecordPayload(p, i) && a.kind == RecordKind(p, i) && a.method_ == RecordMethod(p, i)
    ensures EvalOf(EvaluateKind(a, PinnedPosture(p), postures, issuedAt, DeclaredIds(p)), p, i, postures, issuedAt)
  {
    hide KindOk, RecordPayload, RecordKind, RecordMethod, FailCode, IdleCode, IsCoveringKind, DeclaredIds, PinnedPosture;
  }

  /** The loop that collects the posture claims of the arming records. */
  method CollectPostures(p: Predicate, u: seq<int>, analyses: map<int, Analysis>, ghost binding: string)
    returns (postures: seq<string>)
    requires InRange(p, u) && PayloadFaults(p, u, binding) == {}
    requires forall i :: i in u ==> i in analyses && AnalysisOf(analyses[i], p.records[i], binding)
    ensures postures == ArmingPostures(p, u)
  {
    hide AnalysisOf, PayloadFaults, ObjString, RecordPayload, RecordKind, RecordMethod;
    NoFaults(p, u, binding);
    postures := [];
    for k := 0 to |u|
      invariant postures == ArmingPostures(p, u[..k])
    {
      assert u[..k + 1][..k] == u[..k];
      var a := analyses[u[k]];
      BoundAnalysis(a, p, u[k], binding);
      var posture := ObjString(a.obj, POSTURE_DIGEST);
      if a.kind == KIND_ARMING && posture.Some? {
        postures := postures + [posture.value];
      }
    }
    assert u[..|u|] == u;
  }

  /** The loop that evaluates the kinds and keeps the first that covers nothing. */
  method EvaluateRefs(p: Predicate, u: seq<int>, analyses: map<int, Analysis>, postures: seq<string>, ctx: Context)
    returns (evals: map<int, Eval>, idle: Option<Code>)
    requires InRange(p, u) && PayloadFaults(p, u, ctx.binding) == {}
    requires forall i :: i in u ==> i in analyses && AnalysisOf(analyses[i], p.records[i], ctx.binding)
    ensures Evaluated(evals, p, u, postures, ctx.issuedAt)
    ensures idle == FirstIdle(p, u)
  {
    hide AnalysisOf, PayloadFaults, KindOk, RecordPayload, RecordKind, RecordMethod, FailCode, IdleCode, IsCoveringKind,
      EvalOf, Covers, DeclaredIds, PinnedPosture, Bound;
    NoFaults(p, u, ctx.binding);
    evals, idle := map[], None;
    for k := 0 to |u|
      invariant forall j :: 0 <= j < k ==> u[j] in evals && EvalOf(evals[u[j]], p, u[j], postures, ctx.issuedAt)
      invariant idle == FirstIdle(p, u[..k])
    {
      assert u[..k + 1][..k] == u[..k];
      var a := analyses[u[k]];
      BoundAnalysis(a, p, u[k], ctx.binding);
      AnalysisEvaluates(a, p, u[k], postures, ctx.issuedAt);
      var ev := EvaluateKind(a, PinnedPosture(p), postures, ctx.issuedAt, DeclaredIds(p));
      evals := evals[u[k] := ev];
      if idle.None? {
        idle := ev.idleCode;
      }
    }
    assert u[..|u|] == u;
  }

  /** The loop over one requirement. */
  method MatchClass(p: Predicate, u: seq<int>, evals: map<int, Eval>, req: Requirement, idle: Option<Code>,
    ghost postures: seq<string>, ghost issuedAt: int) returns (satisfied: bool, found: seq<int>, code: Code)
    requires InRange(p, u) && Evaluated(evals, p, u, postures, issuedAt) && idle == FirstIdle(p, u)
    requires IsCoveringKind(req.kind)
    ensures satisfied <==> Met(p, u, req.kind, postures, issuedAt)
    ensures !satisfied ==> code == UnmetCode(p, u, req)
    ensures forall i :: i in found <==> i in u && RecordKind(p, i) == req.kind && Covers(p, i, postures, issuedAt)
  {
    hide KindOk, RecordPayload, RecordKind, RecordMethod, FailCode, IdleCode, IsCoveringKind, Covers;
    satisfied, found := false, [];
    var fail: Option<Code> := None;
    for k := 0 to |u|
      invariant satisfied <==> exists j :: 0 <= j < k && RecordKind(p, u[j]) == req.kind && Covers(p, u[j], postures, issuedAt)
      invariant !satisfied ==> fail == FirstOfKind(p, u[..k], req.kind)
      invariant forall i :: i in found <==> i in u[..k] && RecordKind(p, i) == req.kind && Covers(p, i, postures, issuedAt)
    {
      assert u[..k + 1][..k] == u[..k] && u[..k + 1] == u[..k] + [u[k]];
      var ev := evals[u[k]];
      assert EvalOf(ev, p, u[k], postures, issuedAt);
      if ev.kind == req.kind {
        if ev.valid {
          satisfied, found := true, found + [u[k]];
        } else if fail.None? {
          fail := ev.failCode;
        }
      }
    }
    assert u[..|u|] == u;
    code := if fail.Some? then fail.value else if idle.Some? then idle.value else req.generic;
  }

  /** The records that cover the row. */
  predicate Covering(p: Predicate, row: Row, ctx: Context, i: int)
    requires Readable(p)
  {
    InRange(p, row.refs) && InRange(p, Unique(row.refs))
    && IsCovering(p, row, i, ArmingPostures(p, Unique(row.refs)), ctx.issuedAt)
  }

  /** checkSubstrateRow. */
  method CheckSubstrateRow(p: Predicate, row: Row, states: seq<RecordState>, ctx: Context)
    returns (codes: CodeList, covering: seq<int>)
    requires Readable(p) && RefsWellParsed(row) && states == States(p.records)
    ensures CodeSet(codes) == RowCodes(p, row, ctx)
    ensures codes == [] ==> forall i :: i in covering <==> Covering(p, row, ctx, i)
    ensures codes != [] ==> covering == []
  {
    hide CodeSet, PayloadFaults, AnalysisOf, Evaluated, ArmingPostures, FirstIdle, Met, UnmetCode, FailsClosed, Covers,
      RecordKind, RecordMethod, Unique;
    codes, covering := [], [];
    var voc := Voc(p);
    if FailsClosed(voc, row) {
      codes := AppendCode(codes, FailClosedSubstrateRow);
      return;
    }
    if !row.refsPresent {
      codes := AppendCode(codes, RefsEmpty);
      return;
    }
    if row.refsErr {
      codes := AppendCode(codes, RefMalformed);
      return;
    }
    if |row.refs| == 0 {
      codes := AppendCode(codes, RefsEmpty);
      return;
    }
    var u, refCodes := UniqueRefs(p, row);
    if |refCodes| > 0 {
      return refCodes, [];
    }
    UniqueInRange(p, row);
    var analyses, payloadCodes := AnalyzeRefs(p, u, states, ctx.binding);
    if |payloadCodes| > 0 {
      return payloadCodes, [];
    }
    var postures := CollectPostures(p, u, analyses, ctx.binding);
    var evals, idle := EvaluateRefs(p, u, analyses, postures, ctx);
    codes, covering := CheckClasses(p, row, u, evals, idle, postures, ctx.issuedAt);
    if |codes| > 0 {
      covering := [];
      return;
    }
    var exceeded := CheckCap(p, row, u, evals, covering, postures, ctx.issuedAt);
    if exceeded {
      codes := AppendCode(codes, MethodCapExceeded);
      covering := [];
    }
  }

  /** The loop over the requirements. */
  method CheckClasses(p: Predicate, row: Row, u: seq<int>, evals: map<int, Eval>, idle: Option<Code>,
    postures: seq<string>, ghost issuedAt: int) returns (codes: CodeList, covering: seq<int>)
    requires Readable(p) && InRange(p, row.refs) && InRange(p, u) && Evaluated(evals, p, u, postures, issuedAt)
    requires idle == FirstIdle(p, u) && forall i :: i in u <==> i in row.refs
    ensures CodeSet(codes) == ClassCodes(p, row, u, postures, issuedAt)
    ensures forall i :: i in covering <==> IsCovering(p, row, i, postures, issuedAt)
  {
    hide CodeSet, Evaluated, FirstIdle, Met, UnmetCode, Covers, RecordKind, Requirements, IsCoveringKind;
    var reqs := Requirements(Voc(p), row);
    var met, found, code := MatchClass(p, u, evals, reqs[0], idle, postures, issuedAt);
    codes, covering := [], found;
    assert CodeSet([]) == {};
    if !met {
      codes := AppendCode(codes, code);
    }
    if |reqs| == 2 {
      var met1, found1, code1 := MatchClass(p, u, evals, reqs[1], idle, postures, issuedAt);
      covering := found + found1;
      if !met1 {
        codes := AppendCode(codes, code1);
      }
    }
  }

  method CheckCap(p: Predicate, row: Row, u: seq<int>, evals: map<int, Eval>, covering: seq<int>,
    ghost postures: seq<string>, ghost issuedAt: int) returns (exceeded: bool)
    requires Readable(p) && InRange(p, row.refs) && InRange(p, u) && Evaluated(evals, p, u, postures, issuedAt)
    requires forall i :: i in u <==> i in row.refs
    requires forall i :: i in covering <==> IsCovering(p, row, i, postures, issuedAt)
    ensures exceeded <==> CapExceeded(p, row, postures, issuedAt)
  {
    hide Covers, RecordKind, RecordMethod, RequiredKind;
    var reconstructed := false;
    for k := 0 to |covering|
      invariant reconstructed <==> exists j :: 0 <= j < k && covering[j] in row.refs && RecordMethod(p, covering[j]) == METHOD_RECONSTRUCTED
    {
      assert covering[k] in covering && IsCovering(p, row, covering[k], postures, issuedAt) && covering[k] in u;
      var j :| 0 <= j < |u| && u[j] == covering[k];
      assert EvalOf(evals[u[j]], p, u[j], postures, issuedAt);
      if evals[covering[k]].method_ == METHOD_RECONSTRUCTED {
        reconstructed := true;
      }
    }
    exceeded := row.method_ == Some(METHOD_INTERCEPTED) && reconstructed;
    if reconstructed {
      var j :| 0 <= j < |covering| && covering[j] in row.refs && RecordMethod(p, covering[j]) == METHOD_RECONSTRUCTED;
      assert covering[j] in covering;
      var k :| 0 <= k < |row.refs| && row.refs[k] == covering[j];
    }
    if CapExceeded(p, row, postures, issuedAt) {
      var k :| 0 <= k < |row.refs| && IsCovering(p, row, row.refs[k], postures, issuedAt)
        && RecordMethod(p, row.refs[k]) == METHOD_RECONSTRUCTED;
      var j :| 0 <= j < |covering| && covering[j] == row.refs[k];
    }
  }
}
