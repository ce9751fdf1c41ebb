/** What GATE 1 reads in an observation record: the byte-level checks of a payload and
    the constraints of its kind (aee/validity.go). */
module Payloads {
  import opened Core
  import opened Order
  import opened Json
  import opened Codec
  import opened Codes
  import opened Statements
  import opened CorpusManifest
  import Merkle
  import Binding
  import Numbers

  const RUN_BINDING: string := "aeeRunBinding"
  const KIND: string := "aeeKind"
  const METHOD: string := "aeeMethod"
  const ARMED_AT: string := "armedAt"
  const POSTURE_DIGEST: string := "aeePostureDigest"
  const STILL_ARMED: string := "aeeStillArmed"
  const DROP_COUNT: string := "aeeDropCount"
  const DROP_BOUND: string := "aeeDropBound"
  const PAYLOAD_COMMITMENT: string := "aeePayloadCommitment"
  const ASSESSED_ATTACKS: string := "aeeAssessedAttacks"
  const OBSERVED_SET: string := "aeeObservedSet"
  const OBSERVED_ATTACKS: string := "aeeObservedAttacks"
  const RUN_SEQ: string := "aeeRunSeq"
  const PREV_RUN_BINDING: string := "aeePrevRunBinding"
  const CHAIN_SCOPE: string := "aeeChainScope"
  const BINDING_VERSION_MEMBER: string := "aeeBindingVersion"

  const CHAIN_SCOPE_VOCABULARY: set<string> := {"subject", "corpus", "networkPosture"}

  // ----- members of a parsed object -----

  /** obj.values[name]; a value that is no object has no members. */
  function MemberOf(v: Value, name: string): Option<Value> {
    if v.Obj? && HasName(v.members, name) then Some(Lookup(v.members, name)) else None
  }

  function ObjString(v: Value, name: string): Option<string> {
    var m := MemberOf(v, name);
    if m.Some? && m.value.Str? then Some(m.value.s) else None
  }

  function ObjStrings(v: Value, name: string): Option<seq<string>> {
    var m := MemberOf(v, name);
    if m.Some? && m.value.Arr? then StringsOf(m.value.items) else None
  }

  function StringsOf(items: seq<Value>): (r: Option<seq<string>>)
    ensures r.Some? <==> forall i :: 0 <= i < |items| ==> items[i].Str?
    ensures r.Some? ==> |r.value| == |items| && forall i :: 0 <= i < |items| ==> items[i] == Str(r.value[i])
  {
    if forall i :: 0 <= i < |items| ==> items[i].Str?
    then Some(seq(|items|, i requires 0 <= i < |items| && items[i].Str? => items[i].s))
    else None
  }

  function ObjBool(v: Value, name: string): Option<bool> {
    var m := MemberOf(v, name);
    if m.Some? && m.value.Bool? then Some(m.value.b) else None
  }

  /** json.Number.Int64: only a token in plain notation reads as an integer. */
  function ObjInt(v: Value, name: string): Option<int> {
    var m := MemberOf(v, name);
    if m.Some? && m.value.Num? then Numbers.PlainInt(m.value.n) else None
  }

  // ----- one record -----

  /** recordState: decodeErr is payload.None?. */
  datatype RecordState = RecordState(payload: Option<bytes>, pae: bytes)

  function StateOf(r: Record): RecordState {
    if r.payload.None? then RecordState(None, []) else RecordState(r.payload, Merkle.Pae(r.payloadType, r.payload.value))
  }

  function States(rs: seq<Record>): (states: seq<RecordState>)
    ensures |states| == |rs| && forall i :: 0 <= i < |rs| ==> states[i] == StateOf(rs[i])
  {
    seq(|rs|, i requires 0 <= i < |rs| => StateOf(rs[i]))
  }

  /** The parsed payload, where the bytes decode and parse to an object. */
  function PayloadObject(r: Record): Option<Value> {
    if r.payload.None? then None
    else
      var v := ParseJson(r.payload.value);
      if v.Ok? && v.value.Obj? then Some(v.value) else None
  }

  predicate JsonMediaType(t: string) {
    |t| >= 5 && t[|t| - 5..] == "+json"
  }

  /** The codes of analyzePayload. */
  function PayloadCodes(r: Record, binding: string): set<Code> {
    if r.payload.None? then With({}, true, RecordUndecodable)
    else if ParseJson(r.payload.value).Err? then With({}, true, PayloadNotIJson)
    else if PayloadObject(r).None? then With({}, true, PayloadNotCanonical)
    else
      var obj := PayloadObject(r).value;
      var a := With(With({},
        Canonicalize(r.payload.value) != Ok(r.payload.value) || !BmpNames(obj), PayloadNotCanonical),
        !JsonMediaType(r.payloadType), PayloadMediaType);
      if ObjString(obj, RUN_BINDING).None? || ObjString(obj, KIND).None? || ObjString(obj, METHOD).None?
      then With(a, true, PayloadMissingReserved)
      else With(a, ObjString(obj, RUN_BINDING) != Some(binding), RunBindingMismatch)
  }

  /** The payload passes every byte-level check and binds to this run. */
  predicate Bound(r: Record, binding: string) {
    PayloadCodes(r, binding) == {}
  }

  /** Bound, spelled out. */
  lemma BoundMeans(r: Record, binding: string)
    ensures Bound(r, binding) <==>
      && r.payload.Some? && PayloadObject(r).Some?
      && Canonicalize(r.payload.value) == Ok(r.payload.value) && BmpNames(PayloadObject(r).value)
      && JsonMediaType(r.payloadType)
      && ObjString(PayloadObject(r).value, RUN_BINDING) == Some(binding)
      && ObjString(PayloadObject(r).value, KIND).Some? && ObjString(PayloadObject(r).value, METHOD).Some?
  {
    hide Canonicalize, ParseJson, ObjString, BmpNames;
  }

  /** payloadAnalysis; obj is meaningful where codes is empty. */
  datatype Analysis = Analysis(codes: CodeList, kind: string, method_: string, obj: Value)

  function TextMember(v: Value, name: string): string {
    var s := ObjString(v, name);
    if s.Some? then s.value else ""
  }

  /** What a bound payload is evaluated on. */
  predicate AnalysisOf(a: Analysis, r: Record, binding: string) {
    && CodeSet(a.codes) == PayloadCodes(r, binding)
    && (a.codes == [] ==>
          && PayloadObject(r) == Some(a.obj)
          && a.kind == TextMember(a.obj, KIND) && a.method_ == TextMember(a.obj, METHOD))
  }

  /** analyzePayload. */
  method AnalyzePayload(r: Record, state: RecordState, binding: string) returns (a: Analysis)
    requires state == StateOf(r)
    ensures AnalysisOf(a, r, binding)
  {
    hide ParseJson, Json.Canonicalize, ObjString, BmpNames, CodeSet;
    var codes: CodeList := [];
    assert CodeSet(codes) == {};
    if state.payload.None? {
      codes := AppendCode(codes, RecordUndecodable);
      return Analysis(codes, "", "", Null);
    }
    var v := ParseJsonValue(state.payload.value);
    if v.Err? {
      codes := AppendCode(codes, PayloadNotIJson);
      return Analysis(codes, "", "", Null);
    }
    if !v.value.Obj? {
      codes := AppendCode(codes, PayloadNotCanonical);
      return Analysis(codes, "", "", Null);
    }
    a := AnalyzeObject(r, state.payload.value, v.value, binding);
  }

  /** analyzePayload from the parsed object on. */
  method AnalyzeObject(r: Record, payload: bytes, obj: Value, binding: string) returns (a: Analysis)
    requires r.payload == Some(payload) && ParseJson(payload) == Ok(obj) && obj.Obj?
    ensures AnalysisOf(a, r, binding)
  {
    hide ParseJson, Json.Canonicalize, ObjString, BmpNames, CodeSet, JsonMediaType;
    var codes: CodeList := [];
    assert CodeSet(codes) == {};
    var canon := CanonicalizeBytes(payload);
    if canon.Err? || canon.value != payload {
      codes := AppendCode(codes, PayloadNotCanonical);
    }
    if !BmpNames(obj) {
      codes := AppendCode(codes, PayloadNotCanonical);
    }
    if !JsonMediaType(r.payloadType) {
      codes := AppendCode(codes, PayloadMediaType);
    }
    var rb, kind, method_ := ObjString(obj, RUN_BINDING), ObjString(obj, KIND), ObjString(obj, METHOD);
    if rb.None? || kind.None? || method_.None? {
      codes := AppendCode(codes, PayloadMissingReserved);
      return Analysis(codes, TextMember(obj, KIND), TextMember(obj, METHOD), obj);
    }
    if rb.value != binding {
      codes := AppendCode(codes, RunBindingMismatch);
    }
    return Analysis(codes, kind.value, method_.value, obj);
  }

  // ----- the constraints of a kind -----

  /** attackIDArrayOK. */
  predicate AscendingIn(ids: seq<string>, declared: set<string>) {
    StrictlyAscending(ids) && forall i :: 0 <= i < |ids| ==> ids[i] in declared
  }

  /** A member that holds such an array. */
  predicate AscendingMember(v: Value, name: string, declared: set<string>) {
    var ids := ObjStrings(v, name);
    ids.Some? && AscendingIn(ids.value, declared)
  }

  /** commitmentArrayOK. */
  predicate CommitmentOk(values: seq<string>) {
    values != [] && StrictlyAscending(values) && AllHex64(values)
  }

  predicate InterceptionOk(v: Value, method_: string) {
    && (method_ == METHOD_INTERCEPTED || method_ == METHOD_RECONSTRUCTED)
    && ObjStrings(v, PAYLOAD_COMMITMENT).Some? && CommitmentOk(ObjStrings(v, PAYLOAD_COMMITMENT).value)
  }

  /** The optional run-chaining members: none without a sequence number; with one, a
      positive number, a scope over the closed vocabulary, and a predecessor exactly
      beyond the first run. */
  predicate ChainSyntaxOk(v: Value) {
    if MemberOf(v, RUN_SEQ).None? then MemberOf(v, PREV_RUN_BINDING).None? && MemberOf(v, CHAIN_SCOPE).None?
    else
      && ObjInt(v, RUN_SEQ).Some? && ObjInt(v, RUN_SEQ).value >= 1
      && AscendingMember(v, CHAIN_SCOPE, CHAIN_SCOPE_VOCABULARY)
      && if ObjInt(v, RUN_SEQ).value == 1 then MemberOf(v, PREV_RUN_BINDING).None?
         else ObjString(v, PREV_RUN_BINDING).Some? && IsLowerHex64(ObjString(v, PREV_RUN_BINDING).value)
  }

  predicate ArmedInTime(v: Value, issuedAt: int) {
    var armedAt := ObjString(v, ARMED_AT);
    armedAt.Some? && PARSE_TIMESTAMP(armedAt.value).Some? && PARSE_TIMESTAMP(armedAt.value).value <= issuedAt
  }

  /** The constraints of the arming kind. */
  predicate ArmingOk(v: Value, method_: string, pinned: string, issuedAt: int, declared: set<string>) {
    var version := ObjString(v, BINDING_VERSION_MEMBER);
    && (version.Some? ==> version.value == Binding.BINDING_VERSION)
    && method_ == METHOD_INTERCEPTED
    && ArmedInTime(v, issuedAt)
    && ObjString(v, POSTURE_DIGEST) == Some(pinned)
    && ChainSyntaxOk(v)
    && AscendingMember(v, ASSESSED_ATTACKS, declared)
  }

  predicate DropsWithinBound(v: Value) {
    var count, bound := ObjInt(v, DROP_COUNT), ObjInt(v, DROP_BOUND);
    count.Some? && (count.value == 0 || (bound.Some? && 0 < count.value <= bound.value))
  }

  /** The constraints of the sealed kind. */
  predicate SealedOk(v: Value, method_: string, pinned: string, armingPostures: seq<string>, declared: set<string>) {
    && ObjBool(v, STILL_ARMED) == Some(true)
    && DropsWithinBound(v)
    && method_ == METHOD_INTERCEPTED
    && ObjString(v, POSTURE_DIGEST) == Some(pinned)
    && (forall i :: 0 <= i < |armingPostures| ==> armingPostures[i] == pinned)
    && ObjString(v, OBSERVED_SET).Some? && IsLowerHex64(ObjString(v, OBSERVED_SET).value)
    && AscendingMember(v, OBSERVED_ATTACKS, declared)
  }

  predicate IsCoveringKind(kind: string) {
    kind == KIND_INTERCEPTION || kind == KIND_ARMING || kind == KIND_SEALED || kind == KIND_EXAMINATION
  }

  /** The constraints of the declared kind hold. */
  predicate KindOk(v: Value, kind: string, method_: string, pinned: string, armingPostures: seq<string>,
    issuedAt: int, declared: set<string>)
  {
    if kind == KIND_INTERCEPTION then InterceptionOk(v, method_)
    else if kind == KIND_ARMING then ArmingOk(v, method_, pinned, issuedAt, declared)
    else if kind == KIND_SEALED then SealedOk(v, method_, pinned, armingPostures, declared)
    else kind == KIND_EXAMINATION && method_ == METHOD_RECONSTRUCTED
  }

  /** The code of a record of a covering kind whose constraints are not met. */
  function FailCode(v: Value, kind: string): Code {
    if kind == KIND_INTERCEPTION then
      var values := ObjStrings(v, PAYLOAD_COMMITMENT);
      if MemberOf(v, PAYLOAD_COMMITMENT).Some? && !CommitmentOk(if values.Some? then values.value else [])
      then PayloadCommitmentMalformed else PayloadMissingReserved
    else if kind == KIND_ARMING then ArmingCoversNothing
    else if kind == KIND_SEALED then SealedCoversNothing
    else ExaminationCoversNothing
  }

  /** coversNothingCode: the code of a kind that covers nothing in any state. */
  function IdleCode(kind: string): Option<Code> {
    if IsCoveringKind(kind) then None
    else if kind == KIND_MOAT_DROP then Some(MoatDropCoversNothing)
    else if kind == KIND_UNCOMMITTED_OBSERVATION then Some(UncommittedObservationCoversNothing)
    else Some(RecordKindUnknownCoversNothing)
  }

  /** armingChainSyntaxValid, test by test. */
  function ArmingChainSyntaxValid(v: Value): (ok: bool)
    ensures ok <==> ChainSyntaxOk(v)
  {
    hide MemberOf, StrictlyAscending, IsLowerHex64, StringsOf;
    var prev, scope := MemberOf(v, PREV_RUN_BINDING).Some?, MemberOf(v, CHAIN_SCOPE).Some?;
    if MemberOf(v, RUN_SEQ).None? then !prev && !scope
    else
      var seq_ := ObjInt(v, RUN_SEQ);
      if seq_.None? || seq_.value < 1 then false
      else
        var tokens := ObjStrings(v, CHAIN_SCOPE);
        if tokens.None? then false
        else if exists i :: 0 <= i < |tokens.value| && tokens.value[i] !in CHAIN_SCOPE_VOCABULARY then false
        else if !StrictlyAscending(tokens.value) then false
        else if seq_.value == 1 then !prev
        else
          var p := ObjString(v, PREV_RUN_BINDING);
          p.Some? && IsLowerHex64(p.value)
  }

  /** armingConstraintsMet, test by test. */
  function ArmingConstraintsMet(a: Analysis, pinned: string, issuedAt: int, declared: set<string>): (ok: bool)
    ensures ok <==> ArmingOk(a.obj, a.method_, pinned, issuedAt, declared)
  {
    hide ObjString, ObjStrings, ChainSyntaxOk, AscendingIn;
    var version := ObjString(a.obj, BINDING_VERSION_MEMBER);
    if version.Some? && version.value != Binding.BINDING_VERSION then false
    else
      var armedAt, posture := ObjString(a.obj, ARMED_AT), ObjString(a.obj, POSTURE_DIGEST);
      if armedAt.None? || posture.None? || a.method_ != METHOD_INTERCEPTED then false
      else
        var t := PARSE_TIMESTAMP(armedAt.value);
        if t.None? || t.value > issuedAt || posture.value != pinned then false
        else if !ArmingChainSyntaxValid(a.obj) then false
        else
          var ids := ObjStrings(a.obj, ASSESSED_ATTACKS);
          ids.Some? && AscendingIn(ids.value, declared)
  }

  /** sealedConstraintsMet, test by test. */
  function SealedConstraintsMet(a: Analysis, pinned: string, armingPostures: seq<string>, declared: set<string>): (ok: bool)
    ensures ok <==> SealedOk(a.obj, a.method_, pinned, armingPostures, declared)
  {
    hide ObjString, ObjStrings, ObjBool, ObjInt, AscendingIn, IsLowerHex64;
    var stillArmed, count, posture := ObjBool(a.obj, STILL_ARMED), ObjInt(a.obj, DROP_COUNT), ObjString(a.obj, POSTURE_DIGEST);
    if stillArmed.None? || !stillArmed.value || count.None? || posture.None? || a.method_ != METHOD_INTERCEPTED then false
    else
      var bound := ObjInt(a.obj, DROP_BOUND);
      if count.value != 0 && (bound.None? || count.value < 0 || count.value > bound.value) then false
      else if posture.value != pinned then false
      else if exists i :: 0 <= i < |armingPostures| && posture.value != armingPostures[i] then false
      else
        var observed := ObjString(a.obj, OBSERVED_SET);
        if observed.None? || !IsLowerHex64(observed.value) then false
        else
          var ids := ObjStrings(a.obj, OBSERVED_ATTACKS);
          ids.Some? && AscendingIn(ids.value, declared)
  }

  /** recordEval. */
  datatype Eval = Eval(kind: string, method_: string, valid: bool, failCode: Option<Code>, idleCode: Option<Code>)

  /** evaluateKind. */
  function EvaluateKind(a: Analysis, pinned: string, armingPostures: seq<string>, issuedAt: int, declared: set<string>): (ev: Eval)
    ensures ev.kind == a.kind && ev.method_ == a.method_
    ensures ev.valid <==> KindOk(a.obj, a.kind, a.method_, pinned, armingPostures, issuedAt, declared)
    ensures ev.idleCode == IdleCode(a.kind)
    ensures IsCoveringKind(a.kind) ==> ev.failCode == Some(FailCode(a.obj, a.kind))
  {
    hide ArmingOk, SealedOk, CommitmentOk, ObjStrings, MemberOf;
    if a.kind == KIND_INTERCEPTION then
      var values := ObjStrings(a.obj, PAYLOAD_COMMITMENT);
      var known := a.method_ == METHOD_INTERCEPTED || a.method_ == METHOD_RECONSTRUCTED;
      CommitmentCases(a.obj);
      if MemberOf(a.obj, PAYLOAD_COMMITMENT).Some? && !CommitmentOk(if values.Some? then values.value else [])
      then Eval(a.kind, a.method_, false, Some(PayloadCommitmentMalformed), None)
      else Eval(a.kind, a.method_, known && values.Some?, Some(PayloadMissingReserved), None)
    else if a.kind == KIND_ARMING then
      Eval(a.kind, a.method_, ArmingConstraintsMet(a, pinned, issuedAt, declared), Some(ArmingCoversNothing), None)
    else if a.kind == KIND_SEALED then
      Eval(a.kind, a.method_, SealedConstraintsMet(a, pinned, armingPostures, declared), Some(SealedCoversNothing), None)
    else if a.kind == KIND_EXAMINATION then
      Eval(a.kind, a.method_, a.method_ == METHOD_RECONSTRUCTED, Some(ExaminationCoversNothing), None)
    else Eval(a.kind, a.method_, false, None, IdleCode(a.kind))
  }

  lemma CommitmentCases(v: Value)
    ensures ObjStrings(v, PAYLOAD_COMMITMENT).Some? ==> MemberOf(v, PAYLOAD_COMMITMENT).Some?
    ensures !CommitmentOk([])
  {
  }
}
