/** GATE 1 in plain terms: what is asked of a record's payload, of a row and of the
    statement, written out over member names and values, with the code each fault
    raises. */
module CoverageRules {
  import opened Core
  import opened Order
  import opened Sorting
  import opened Json
  import opened Codec
  import opened Codes
  import opened Statements
  import opened Payloads
  import opened Rows
  import opened GateRules
  import Accepted
  import Numbers
  import Parsed

  // ----- members of a payload -----

  predicate Says(v: Value, name: string, s: string) {
    v.Obj? && Entry(name, Str(s)) in v.members
  }

  predicate Lists(v: Value, name: string, ss: seq<string>) {
    v.Obj? && Entry(name, Arr(Map(ss, StrOf))) in v.members
  }

  predicate CountsAs(v: Value, name: string, l: Numbers.Number, n: int) {
    v.Obj? && Entry(name, Num(l)) in v.members && Numbers.PlainInt(l) == Some(n)
  }

  ghost predicate Counts(v: Value, name: string, n: int) {
    exists l: Numbers.Number :: CountsAs(v, name, l, n)
  }

  predicate Flagged(v: Value, name: string, b: bool) {
    v.Obj? && Entry(name, Bool(b)) in v.members
  }

  predicate Has(v: Value, name: string) {
    v.Obj? && exists i :: 0 <= i < |v.members| && v.members[i].name == name
  }

  /** What the parser hands out: an object names no member twice. */
  predicate Plain(v: Value) {
    v.Obj? ==> Distinct(Names(v.members))
  }

  lemma MemberRule(v: Value, name: string, x: Value)
    requires Plain(v)
    ensures MemberOf(v, name) == Some(x) <==> v.Obj? && Entry(name, x) in v.members
    ensures MemberOf(v, name).Some? <==> Has(v, name)
  {
    hide Distinct;
    if v.Obj? && Entry(name, x) in v.members {
      UniqueLookup(v.members, Entry(name, x));
    }
  }

  lemma StringRule(v: Value, name: string)
    requires Plain(v)
    ensures forall s :: ObjString(v, name) == Some(s) <==> Says(v, name, s)
  {
    hide MemberOf, Plain;
    forall s ensures ObjString(v, name) == Some(s) <==> Says(v, name, s) {
      MemberRule(v, name, Str(s));
    }
  }

  lemma FlagRule(v: Value, name: string, b: bool)
    requires Plain(v)
    ensures ObjBool(v, name) == Some(b) <==> Flagged(v, name, b)
  {
    hide MemberOf, Plain;
    MemberRule(v, name, Bool(b));
  }

  lemma CountRule(v: Value, name: string, n: int)
    requires Plain(v)
    ensures ObjInt(v, name) == Some(n) <==> Counts(v, name, n)
  {
    hide MemberOf, Plain, Numbers.PlainInt;
    var m := MemberOf(v, name);
    if m.Some? {
      MemberRule(v, name, m.value);
      if m.value.Num? && Numbers.PlainInt(m.value.n) == Some(n) {
        assert CountsAs(v, name, m.value.n, n);
      }
    }
    if l: Numbers.Number :| CountsAs(v, name, l, n) {
      MemberRule(v, name, Num(l));
    }
  }

  lemma ListRule(v: Value, name: string, ss: seq<string>)
    requires Plain(v)
    ensures ObjStrings(v, name) == Some(ss) <==> Lists(v, name, ss)
  {
    hide MemberOf, Plain;
    var items := Map(ss, StrOf);
    MemberRule(v, name, Arr(items));
    if Lists(v, name, ss) {
      assert MemberOf(v, name) == Some(Arr(items));
      var r := StringsOf(items);
      assert r.Some? && |r.value| == |ss|;
      forall i | 0 <= i < |ss| ensures r.value[i] == ss[i] {
        assert items[i] == Str(ss[i]);
      }
      assert r.value == ss;
    }
    if ObjStrings(v, name) == Some(ss) {
      var m := MemberOf(v, name).value;
      assert m.Arr? && StringsOf(m.items) == Some(ss);
      assert |m.items| == |items| && forall i :: 0 <= i < |ss| ==> m.items[i] == Str(ss[i]) == items[i];
      assert m.items == items;
      assert m == Arr(items) && MemberOf(v, name) == Some(m);
      MemberRule(v, name, m);
    }
  }

  // ----- the kinds -----

  predicate Digests(ss: seq<string>) {
    forall i :: 0 <= i < |ss| ==> Hex64(ss[i])
  }

  predicate Among(ss: seq<string>, known: set<string>) {
    forall i :: 0 <= i < |ss| ==> ss[i] in known
  }

  /** The member is an ascending array over the set. */
  ghost predicate ListsAmong(v: Value, name: string, known: set<string>) {
    exists ss :: Lists(v, name, ss) && Ascends(ss) && Among(ss, known)
  }

  /** The member is a non-empty ascending array of digests. */
  ghost predicate ListsDigests(v: Value, name: string) {
    exists ss :: Lists(v, name, ss) && ss != [] && Ascends(ss) && Digests(ss)
  }

  ghost predicate InterceptionRule(v: Value) {
    (Says(v, "aeeMethod", "intercepted") || Says(v, "aeeMethod", "reconstructed")) && ListsDigests(v, "aeePayloadCommitment")
  }

  /** Run chaining: nothing without a sequence number; with one, a scope, and a
      predecessor exactly from the second run on. */
  ghost predicate ChainRule(v: Value) {
    if !Has(v, "aeeRunSeq") then !Has(v, "aeePrevRunBinding") && !Has(v, "aeeChainScope")
    else
      && ListsAmong(v, "aeeChainScope", {"subject", "corpus", "networkPosture"})
      && ((Counts(v, "aeeRunSeq", 1) && !Has(v, "aeePrevRunBinding"))
          || ((exists n :: n > 1 && Counts(v, "aeeRunSeq", n)) && exists b :: Says(v, "aeePrevRunBinding", b) && Hex64(b)))
  }

  ghost predicate InTime(v: Value, issuedAt: int) {
    exists t :: Says(v, "armedAt", t) && PARSE_TIMESTAMP(t).Some? && PARSE_TIMESTAMP(t).value <= issuedAt
  }

  ghost predicate ArmingRule(v: Value, pinned: string, issuedAt: int, declared: set<string>) {
    && (forall x :: Says(v, "aeeBindingVersion", x) ==> x == "2")
    && Says(v, "aeeMethod", "intercepted") && InTime(v, issuedAt) && Says(v, "aeePostureDigest", pinned)
    && ChainRule(v) && ListsAmong(v, "aeeAssessedAttacks", declared)
  }

  /** No drops, or no more than the bound. */
  ghost predicate DropRule(v: Value) {
    Counts(v, "aeeDropCount", 0)
    || exists n, m :: Counts(v, "aeeDropCount", n) && Counts(v, "aeeDropBound", m) && 0 < n <= m
  }

  /** agreed: no arming record beside it claims another posture. */
  ghost predicate SealedRule(v: Value, pinned: string, agreed: bool, declared: set<string>) {
    && Flagged(v, "aeeStillArmed", true) && DropRule(v) && Says(v, "aeeMethod", "intercepted")
    && Says(v, "aeePostureDigest", pinned) && agreed
    && (exists d :: Says(v, "aeeObservedSet", d) && Hex64(d)) && ListsAmong(v, "aeeObservedAttacks", declared)
  }

  ghost predicate KindRule(v: Value, pinned: string, agreed: bool, issuedAt: int, declared: set<string>) {
    || (Says(v, "aeeKind", "interception") && InterceptionRule(v))
    || (Says(v, "aeeKind", "arming") && ArmingRule(v, pinned, issuedAt, declared))
    || (Says(v, "aeeKind", "sealed") && SealedRule(v, pinned, agreed, declared))
    || (Says(v, "aeeKind", "examination") && Says(v, "aeeMethod", "reconstructed"))
  }

  lemma AmongRule(v: Value, name: string, known: set<string>)
    requires Plain(v)
    ensures AscendingMember(v, name, known) <==> ListsAmong(v, name, known)
  {
    hide ObjStrings, Plain, Lists;
    var ids := ObjStrings(v, name);
    if ids.Some? {
      ListRule(v, name, ids.value);
      AscendsRule(ids.value);
    }
    if ss :| Lists(v, name, ss) && Ascends(ss) && Among(ss, known) {
      ListRule(v, name, ss);
      AscendsRule(ss);
    }
  }

  lemma DigestsRule(v: Value, name: string)
    requires Plain(v)
    ensures ObjStrings(v, name).Some? && CommitmentOk(ObjStrings(v, name).value) <==> ListsDigests(v, name)
  {
    hide ObjStrings, Plain, Lists, Hex64, IsLowerHex64;
    forall d: string ensures IsLowerHex64(d) <==> Hex64(d) {
      HexRule(d);
    }
    var ids := ObjStrings(v, name);
    if ids.Some? {
      ListRule(v, name, ids.value);
      AscendsRule(ids.value);
    }
    if ss :| Lists(v, name, ss) && ss != [] && Ascends(ss) && Digests(ss) {
      ListRule(v, name, ss);
      AscendsRule(ss);
    }
  }

  lemma ChainSyntaxRule(v: Value)
    requires Plain(v)
    ensures ChainSyntaxOk(v) <==> ChainRule(v)
  {
    hide ObjString, ObjInt, MemberOf, Plain, Has, Says, Counts, AscendingMember, ListsAmong, Hex64, IsLowerHex64;
    MemberRule(v, RUN_SEQ, Null);
    MemberRule(v, PREV_RUN_BINDING, Null);
    MemberRule(v, CHAIN_SCOPE, Null);
    AmongRule(v, CHAIN_SCOPE, CHAIN_SCOPE_VOCABULARY);
    StringRule(v, PREV_RUN_BINDING);
    forall d: string ensures IsLowerHex64(d) <==> Hex64(d) {
      HexRule(d);
    }
    forall n ensures ObjInt(v, RUN_SEQ) == Some(n) <==> Counts(v, RUN_SEQ, n) {
      CountRule(v, RUN_SEQ, n);
    }
    if ObjInt(v, RUN_SEQ).Some? {
      assert Counts(v, RUN_SEQ, ObjInt(v, RUN_SEQ).value);
    }
    if ObjString(v, PREV_RUN_BINDING).Some? {
      assert Says(v, PREV_RUN_BINDING, ObjString(v, PREV_RUN_BINDING).value);
    }
  }

  lemma TimeRule(v: Value, issuedAt: int)
    requires Plain(v)
    ensures ArmedInTime(v, issuedAt) <==> InTime(v, issuedAt)
  {
    hide ObjString, Plain, Says;
    StringRule(v, ARMED_AT);
    if ObjString(v, ARMED_AT).Some? {
      assert Says(v, ARMED_AT, ObjString(v, ARMED_AT).value);
    }
  }

  lemma DropsRule(v: Value)
    requires Plain(v)
    ensures DropsWithinBound(v) <==> DropRule(v)
  {
    hide ObjInt, Plain, Counts;
    forall n ensures ObjInt(v, DROP_COUNT) == Some(n) <==> Counts(v, DROP_COUNT, n) {
      CountRule(v, DROP_COUNT, n);
    }
    forall n ensures ObjInt(v, DROP_BOUND) == Some(n) <==> Counts(v, DROP_BOUND, n) {
      CountRule(v, DROP_BOUND, n);
    }
    if ObjInt(v, DROP_COUNT).Some? {
      assert Counts(v, DROP_COUNT, ObjInt(v, DROP_COUNT).value);
    }
    if ObjInt(v, DROP_BOUND).Some? {
      assert Counts(v, DROP_BOUND, ObjInt(v, DROP_BOUND).value);
    }
  }

  lemma InterceptionIs(v: Value)
    requires Plain(v)
    ensures InterceptionOk(v, TextMember(v, METHOD)) <==> InterceptionRule(v)
  {
    hide ObjString, ObjStrings, Plain, Says, ListsDigests, CommitmentOk;
    StringRule(v, METHOD);
    DigestsRule(v, PAYLOAD_COMMITMENT);
  }

  lemma ArmingIs(v: Value, pinned: string, issuedAt: int, declared: set<string>)
    requires Plain(v)
    ensures ArmingOk(v, TextMember(v, METHOD), pinned, issuedAt, declared) <==> ArmingRule(v, pinned, issuedAt, declared)
  {
    hide ObjString, Plain, Says, ListsAmong, AscendingMember, ChainSyntaxOk, ChainRule, ArmedInTime, InTime;
    StringRule(v, METHOD);
    StringRule(v, BINDING_VERSION_MEMBER);
    StringRule(v, POSTURE_DIGEST);
    TimeRule(v, issuedAt);
    ChainSyntaxRule(v);
    AmongRule(v, ASSESSED_ATTACKS, declared);
    if ObjString(v, BINDING_VERSION_MEMBER).Some? {
      assert Says(v, BINDING_VERSION_MEMBER, ObjString(v, BINDING_VERSION_MEMBER).value);
    }
  }

  lemma SealedIs(v: Value, pinned: string, claims: seq<string>, declared: set<string>)
    requires Plain(v)
    ensures SealedOk(v, TextMember(v, METHOD), pinned, claims, declared)
            <==> SealedRule(v, pinned, forall i :: 0 <= i < |claims| ==> claims[i] == pinned, declared)
  {
    hide ObjString, ObjBool, Plain, Says, Flagged, ListsAmong, AscendingMember, DropsWithinBound, DropRule, Hex64, IsLowerHex64;
    StringRule(v, METHOD);
    StringRule(v, POSTURE_DIGEST);
    StringRule(v, OBSERVED_SET);
    FlagRule(v, STILL_ARMED, true);
    DropsRule(v);
    AmongRule(v, OBSERVED_ATTACKS, declared);
    var observed := ObjString(v, OBSERVED_SET);
    if observed.Some? {
      assert Says(v, OBSERVED_SET, observed.value);
    }
    forall d: string ensures IsLowerHex64(d) <==> Hex64(d) {
      HexRule(d);
    }
  }

  lemma KindIs(v: Value, pinned: string, claims: seq<string>, issuedAt: int, declared: set<string>)
    requires Plain(v)
    ensures KindOk(v, TextMember(v, KIND), TextMember(v, METHOD), pinned, claims, issuedAt, declared)
            <==> KindRule(v, pinned, forall i :: 0 <= i < |claims| ==> claims[i] == pinned, issuedAt, declared)
  {
    hide ObjString, Plain, Says, InterceptionOk, InterceptionRule, ArmingOk, ArmingRule, SealedOk, SealedRule;
    InterceptionIs(v);
    ArmingIs(v, pinned, issuedAt, declared);
    SealedIs(v, pinned, claims, declared);
    StringRule(v, KIND);
    StringRule(v, METHOD);
    KindsApart();
  }

  lemma KindsApart()
    ensures KIND_INTERCEPTION != "" && KIND_ARMING != "" && KIND_SEALED != "" && KIND_EXAMINATION != ""
    ensures KIND_INTERCEPTION != KIND_ARMING && KIND_INTERCEPTION != KIND_SEALED && KIND_INTERCEPTION != KIND_EXAMINATION
    ensures KIND_ARMING != KIND_SEALED && KIND_ARMING != KIND_EXAMINATION && KIND_SEALED != KIND_EXAMINATION
  {
    assert |KIND_INTERCEPTION| == 12 && |KIND_ARMING| == 6 && |KIND_SEALED| == 6 && |KIND_EXAMINATION| == 11;
    assert KIND_ARMING[0] != KIND_SEALED[0];
  }

  // ----- one payload -----

  /** The object a payload parses to; a value without members where there is none. */
  function Content(r: Record): Value {
    if r.payload.Some? && ParseJson(r.payload.value).Ok? && ParseJson(r.payload.value).value.Obj?
    then ParseJson(r.payload.value).value else Null
  }

  lemma ContentPlain(r: Record)
    ensures Plain(Content(r))
    ensures forall p: Predicate, i :: 0 <= i < |p.records| && p.records[i] == r ==> RecordPayload(p, i) == Content(r)
  {
    hide ParseJson;
    if Content(r).Obj? {
      WithinBound(r.payload.value);
      Parsed.ParseJsonWellFormed(r.payload.value, MAX_DEPTH);
    }
  }

  lemma WithinBound(raw: bytes)
    ensures ParseJson(raw) == ParseWithin(raw, MAX_DEPTH)
  {
  }

  /** The member names of a value, at every depth. */
  ghost predicate Named(v: Value, name: string) {
    match v
    case Arr(items) => exists i :: 0 <= i < |items| && Named(items[i], name)
    case Obj(members) => exists i :: 0 <= i < |members| && (members[i].name == name || Named(members[i].value, name))
    case _ => false
  }

  ghost predicate NamedBeyondBmp(v: Value) {
    exists name :: Named(v, name) && BeyondBmp([name])
  }

  lemma {:induction false} NamesRule(v: Value)
    ensures BmpNames(v) <==> !NamedBeyondBmp(v)
  {
    forall name ensures BmpOnly(name) <==> !BeyondBmp([name]) {
      WithinBmp([name]);
      assert [name][0] == name;
    }
    match v
    case Arr(items) =>
      forall i | 0 <= i < |items| ensures BmpNames(items[i]) <==> !NamedBeyondBmp(items[i]) {
        NamesRule(items[i]);
      }
      if i :| 0 <= i < |items| && NamedBeyondBmp(items[i]) {
        var name :| Named(items[i], name) && BeyondBmp([name]);
        assert Named(v, name);
      }
    case Obj(members) =>
      forall i | 0 <= i < |members| ensures BmpNames(members[i].value) <==> !NamedBeyondBmp(members[i].value) {
        NamesRule(members[i].value);
      }
      if i :| 0 <= i < |members| && NamedBeyondBmp(members[i].value) {
        var name :| Named(members[i].value, name) && BeyondBmp([name]);
        assert Named(v, name);
      }
      if i :| 0 <= i < |members| && BeyondBmp([members[i].name]) {
        assert Named(v, members[i].name);
      }
    case _ =>
  }

  ghost predicate SaysSome(v: Value, name: string) {
    exists s :: Says(v, name, s)
  }

  /** The byte-level faults of a payload. */
  ghost function ContentFaults(r: Record, binding: string): set<Code> {
    if r.payload.None? then {RecordUndecodable}
    else if ParseJson(r.payload.value).Err? then {PayloadNotIJson}
    else if !ParseJson(r.payload.value).value.Obj? then {PayloadNotCanonical}
    else
      var v, t := ParseJson(r.payload.value).value, r.payloadType;
      var reserved := SaysSome(v, "aeeRunBinding") && SaysSome(v, "aeeKind") && SaysSome(v, "aeeMethod");
      With(With(With(With({},
        Canonicalize(r.payload.value) != Ok(r.payload.value) || NamedBeyondBmp(v), PayloadNotCanonical),
        |t| < 5 || t[|t| - 5..] != "+json", PayloadMediaType),
        !reserved, PayloadMissingReserved),
        reserved && !Says(v, "aeeRunBinding", binding), RunBindingMismatch)
  }

  lemma SomeRule(v: Value, name: string)
    requires Plain(v)
    ensures ObjString(v, name).Some? <==> SaysSome(v, name)
  {
    hide ObjString, Plain, Says;
    StringRule(v, name);
    if ObjString(v, name).Some? {
      assert Says(v, name, ObjString(v, name).value);
    }
  }

  lemma PayloadRule(r: Record, binding: string)
    ensures PayloadCodes(r, binding) == ContentFaults(r, binding)
  {
    hide ParseJson, Json.Canonicalize, BmpNames, NamedBeyondBmp, ObjString, Says, SaysSome;
    if r.payload.Some? && ParseJson(r.payload.value).Ok? && ParseJson(r.payload.value).value.Obj? {
      var v := ParseJson(r.payload.value).value;
      ContentPlain(r);
      NamesRule(v);
      SomeRule(v, RUN_BINDING);
      SomeRule(v, KIND);
      SomeRule(v, METHOD);
      StringRule(v, RUN_BINDING);
    }
  }

  // ----- one row -----

  /** Some reference names a record of the kind whose constraints hold. */
  ghost predicate Covered(p: Predicate, row: Row, kind: string, issuedAt: int)
    requires InRange(p, row.refs)
  {
    exists k :: 0 <= k < |row.refs| && CoveredAt(p, row, k, kind, issuedAt)
  }

  ghost predicate CoveredAt(p: Predicate, row: Row, k: int, kind: string, issuedAt: int)
    requires InRange(p, row.refs) && 0 <= k < |row.refs|
  {
    var v := Content(p.records[row.refs[k]]);
    Says(v, "aeeKind", kind) && KindRule(v, PinnedDigest(p), ClaimsAgree(p, row), issuedAt, DeclaredAttacks(p))
  }

  function PinnedDigest(p: Predicate): string {
    if p.env.Some? && p.env.value.networkPosture.Some? then DigestOf(Some(p.env.value.networkPosture.value.digest)) else ""
  }

  function DeclaredAttacks(p: Predicate): set<string> {
    if p.env.Some? && p.env.value.corpus.Some? then
      var classes := Declares(p.env.value.corpus.value);
      set c, id | c in classes && id in classes[c] :: id
    else {}
  }

  /** Every arming record the row references claims the pinned posture, if any. */
  ghost predicate ClaimsAgree(p: Predicate, row: Row)
    requires InRange(p, row.refs)
  {
    forall k, s :: 0 <= k < |row.refs| && ClaimsPosture(p.records[row.refs[k]], s) ==> s == PinnedDigest(p)
  }

  predicate ClaimsPosture(r: Record, s: string) {
    Says(Content(r), "aeeKind", "arming") && Says(Content(r), "aeePostureDigest", s)
  }

  /** The code of a record of a covering kind whose constraints fail. */
  ghost function FailOf(v: Value, kind: string): Code {
    if kind == "interception" then
      if Has(v, "aeePayloadCommitment") && !ListsDigests(v, "aeePayloadCommitment") then PayloadCommitmentMalformed
      else PayloadMissingReserved
    else if kind == "arming" then ArmingCoversNothing
    else if kind == "sealed" then SealedCoversNothing
    else ExaminationCoversNothing
  }

  /** The code of a record whose kind never covers. */
  function IdleOf(v: Value): Option<Code> {
    if Says(v, "aeeKind", "interception") || Says(v, "aeeKind", "arming") || Says(v, "aeeKind", "sealed")
       || Says(v, "aeeKind", "examination") then None
    else if Says(v, "aeeKind", "moat-drop") then Some(MoatDropCoversNothing)
    else if Says(v, "aeeKind", "uncommitted-observation") then Some(UncommittedObservationCoversNothing)
    else Some(RecordKindUnknownCoversNothing)
  }

  /** The first reference of the kind, in order. */
  ghost function FirstFail(p: Predicate, refs: seq<int>, kind: string): Option<Code>
    requires InRange(p, refs)
  {
    if refs == [] then None
    else if Says(Content(p.records[refs[0]]), "aeeKind", kind) then Some(FailOf(Content(p.records[refs[0]]), kind))
    else FirstFail(p, refs[1..], kind)
  }

  /** The first reference whose kind never covers. */
  function FirstIdleOf(p: Predicate, refs: seq<int>): Option<Code>
    requires InRange(p, refs)
  {
    if refs == [] then None
    else if IdleOf(Content(p.records[refs[0]])).Some? then IdleOf(Content(p.records[refs[0]]))
    else FirstIdleOf(p, refs[1..])
  }

  /** What the row raises for a kind it needs and nothing covers: the fault of the first
      record of the kind, else of the first that never covers, else the generic code. */
  ghost function Uncovered(p: Predicate, row: Row, kind: string, generic: Code, issuedAt: int): set<Code>
    requires InRange(p, row.refs)
  {
    if Covered(p, row, kind, issuedAt) then {}
    else if FirstFail(p, row.refs, kind).Some? then {FirstFail(p, row.refs, kind).value}
    else if FirstIdleOf(p, row.refs).Some? then {FirstIdleOf(p, row.refs).value}
    else {generic}
  }

  /** A reconstructed row needs an examination, an intercepted caught row an
      interception, an intercepted clean row an arming and a sealed record. */
  ghost function ClassFaults(p: Predicate, row: Row, issuedAt: int): set<Code>
    requires Readable(p) && InRange(p, row.refs)
  {
    if row.method_ == Some("reconstructed") then Uncovered(p, row, "examination", ReconstructedRowUncovered, issuedAt)
    else if row.containmentObserved in p.env.value.vocabulary.value.caught
    then Uncovered(p, row, "interception", CaughtRowUncovered, issuedAt)
    else Uncovered(p, row, "arming", CleanRowUncovered, issuedAt) + Uncovered(p, row, "sealed", CleanRowUncovered, issuedAt)
  }

  ghost function RefFaults(p: Predicate, refs: seq<int>, binding: string): set<Code>
    requires InRange(p, refs)
  {
    if refs == [] then {} else ContentFaults(p.records[refs[0]], binding) + RefFaults(p, refs[1..], binding)
  }

  /** An intercepted row that rests on a reconstructed record. */
  ghost predicate Capped(p: Predicate, row: Row, issuedAt: int)
    requires Readable(p) && InRange(p, row.refs)
  {
    row.method_ == Some("intercepted")
    && exists k :: 0 <= k < |row.refs| && Says(Content(p.records[row.refs[k]]), "aeeMethod", "reconstructed")
         && if row.containmentObserved in p.env.value.vocabulary.value.caught
            then CoveredAt(p, row, k, "interception", issuedAt)
            else CoveredAt(p, row, k, "arming", issuedAt) || CoveredAt(p, row, k, "sealed", issuedAt)
  }

  /** The codes of a substrate row: those of the first stage that raises any. */
  ghost function RowFaults(p: Predicate, row: Row, binding: string, issuedAt: int): set<Code>
    requires Readable(p) && RefsWellParsed(row)
  {
    var voc := p.env.value.vocabulary.value;
    if (row.containmentObserved !in voc.labels && row.containmentObserved !in voc.caught)
       || row.method_ !in {Some("intercepted"), Some("reconstructed")}
       || row.attribution !in {Some("pinned"), Some("paired")} then {FailClosedSubstrateRow}
    else if !row.refsPresent then {RefsEmpty}
    else if row.refsErr then {RefMalformed}
    else if row.refs == [] then {RefsEmpty}
    else if exists k :: 0 <= k < |row.refs| && row.refs[k] >= |p.records| then {RefOutOfRange}
    else if RefFaults(p, row.refs, binding) != {} then RefFaults(p, row.refs, binding)
    else if ClassFaults(p, row, issuedAt) != {} then ClassFaults(p, row, issuedAt)
    else if Capped(p, row, issuedAt) then {MethodCapExceeded}
    else {}
  }

  // ----- references, in order and once each -----

  lemma {:induction false} FailAppend(p: Predicate, a: seq<int>, b: seq<int>, kind: string)
    requires InRange(p, a) && InRange(p, b)
    ensures InRange(p, a + b)
    ensures FirstFail(p, a + b, kind) == if FirstFail(p, a, kind).Some? then FirstFail(p, a, kind) else FirstFail(p, b, kind)
    ensures FirstIdleOf(p, a + b) == if FirstIdleOf(p, a).Some? then FirstIdleOf(p, a) else FirstIdleOf(p, b)
  {
    hide Says, IdleOf, FailOf, Content;
    if a == [] {
      assert a + b == b;
    } else {
      assert (a + b)[1..] == a[1..] + b;
      FailAppend(p, a[1..], b, kind);
    }
  }

  lemma {:induction false} FaultsAppend(p: Predicate, a: seq<int>, b: seq<int>, binding: string)
    requires InRange(p, a) && InRange(p, b)
    ensures InRange(p, a + b) && RefFaults(p, a + b, binding) == RefFaults(p, a, binding) + RefFaults(p, b, binding)
  {
    hide ContentFaults;
    if a == [] {
      assert a + b == b;
    } else {
      assert (a + b)[1..] == a[1..] + b;
      FaultsAppend(p, a[1..], b, binding);
    }
  }

  /** A reference already there adds nothing. */
  lemma {:induction false} Again(p: Predicate, refs: seq<int>, i: int, kind: string, binding: string)
    requires InRange(p, refs) && i in refs
    ensures 0 <= i < |p.records| && ContentFaults(p.records[i], binding) <= RefFaults(p, refs, binding)
    ensures Says(Content(p.records[i]), "aeeKind", kind) ==> FirstFail(p, refs, kind).Some?
    ensures IdleOf(Content(p.records[i])).Some? ==> FirstIdleOf(p, refs).Some?
  {
    hide ContentFaults, Says, IdleOf, FailOf, Content;
    if refs[0] != i {
      assert i in refs[1..];
      Again(p, refs[1..], i, kind, binding);
    }
  }

  lemma OneRef(p: Predicate, i: int, kind: string, binding: string)
    requires 0 <= i < |p.records|
    ensures RefFaults(p, [i], binding) == ContentFaults(p.records[i], binding)
    ensures FirstFail(p, [i], kind) == if Says(Content(p.records[i]), "aeeKind", kind) then Some(FailOf(Content(p.records[i]), kind)) else None
    ensures FirstIdleOf(p, [i]) == IdleOf(Content(p.records[i]))
  {
    hide ContentFaults, Says, IdleOf, FailOf, Content;
    assert [i][1..] == [];
  }

  lemma {:induction false} OnceIsEnough(p: Predicate, refs: seq<int>, kind: string, binding: string)
    requires InRange(p, refs) && InRange(p, Unique(refs))
    ensures RefFaults(p, Unique(refs), binding) == RefFaults(p, refs, binding)
    ensures FirstFail(p, Unique(refs), kind) == FirstFail(p, refs, kind)
    ensures FirstIdleOf(p, Unique(refs)) == FirstIdleOf(p, refs)
  {
    hide ContentFaults, Says, IdleOf, FailOf, Content, RefFaults, FirstFail, FirstIdleOf;
    if refs != [] {
      var init, last := refs[..|refs| - 1], refs[|refs| - 1];
      assert refs == init + [last];
      var u := Unique(init);
      assert InRange(p, u) by { UniqueIn(p, init); }
      OnceIsEnough(p, init, kind, binding);
      FailAppend(p, init, [last], kind);
      FaultsAppend(p, init, [last], binding);
      OneRef(p, last, kind, binding);
      if last in u {
        assert last in init;
        Again(p, init, last, kind, binding);
      } else {
        FailAppend(p, u, [last], kind);
        FaultsAppend(p, u, [last], binding);
      }
    }
  }

  lemma UniqueIn(p: Predicate, refs: seq<int>)
    requires InRange(p, refs)
    ensures InRange(p, Unique(refs))
  {
    var u := Unique(refs);
    forall i | 0 <= i < |u| ensures 0 <= u[i] < |p.records| {
      assert u[i] in refs;
    }
  }

  // ----- the check of a row follows these rules -----

  lemma SaysKind(r: Record, kind: string)
    requires kind != ""
    ensures Says(Content(r), "aeeKind", kind) <==> TextMember(Content(r), KIND) == kind
  {
    hide Plain, Says, Content, ObjString;
    ContentPlain(r);
    StringRule(Content(r), KIND);
  }

  lemma SaysMethod(r: Record, m: string)
    requires m != ""
    ensures Says(Content(r), "aeeMethod", m) <==> TextMember(Content(r), METHOD) == m
  {
    hide Plain, Says, Content, ObjString;
    ContentPlain(r);
    StringRule(Content(r), METHOD);
  }

  lemma FailRule(r: Record, kind: string)
    ensures FailCode(Content(r), kind) == FailOf(Content(r), kind)
  {
    hide Plain, Content, ObjStrings, MemberOf, Has, ListsDigests, CommitmentOk;
    ContentPlain(r);
    MemberRule(Content(r), PAYLOAD_COMMITMENT, Null);
    DigestsRule(Content(r), PAYLOAD_COMMITMENT);
    EmptyIsNone();
  }

  lemma EmptyIsNone()
    ensures !CommitmentOk([])
  {
  }

  lemma IdleRule(r: Record)
    ensures IdleCode(TextMember(Content(r), KIND)) == IdleOf(Content(r))
  {
    hide Says, Content, TextMember;
    KindsApart();
    assert |KIND_MOAT_DROP| == 9 && |KIND_UNCOMMITTED_OBSERVATION| == 23;
    SaysKind(r, KIND_INTERCEPTION);
    SaysKind(r, KIND_ARMING);
    SaysKind(r, KIND_SEALED);
    SaysKind(r, KIND_EXAMINATION);
    SaysKind(r, KIND_MOAT_DROP);
    SaysKind(r, KIND_UNCOMMITTED_OBSERVATION);
  }

  lemma {:induction false} FirstsRule(p: Predicate, refs: seq<int>, kind: string)
    requires InRange(p, refs) && kind != ""
    ensures FirstOfKind(p, refs, kind) == FirstFail(p, refs, kind)
    ensures FirstIdle(p, refs) == FirstIdleOf(p, refs)
  {
    hide Says, IdleOf, FailOf, Content, FailCode, IdleCode, TextMember, FirstFail, FirstIdleOf, RecordPayload;
    if refs == [] {
      NoFirst(p, kind);
    } else {
      var init, last := refs[..|refs| - 1], refs[|refs| - 1];
      assert refs == init + [last];
      FirstsRule(p, init, kind);
      FailAppend(p, init, [last], kind);
      OneRef(p, last, kind, "");
      var r := p.records[last];
      ContentPlain(r);
      SaysKind(r, kind);
      FailRule(r, kind);
      IdleRule(r);
    }
  }

  lemma NoFirst(p: Predicate, kind: string)
    ensures FirstFail(p, [], kind).None? && FirstIdleOf(p, []).None?
  {
  }

  lemma {:induction false} RefsRule(p: Predicate, refs: seq<int>, binding: string)
    requires InRange(p, refs)
    ensures PayloadFaults(p, refs, binding) == RefFaults(p, refs, binding)
  {
    hide PayloadCodes, ContentFaults, RefFaults;
    if refs == [] {
      NoRefs(p, binding);
    } else {
      var init, last := refs[..|refs| - 1], refs[|refs| - 1];
      assert refs == init + [last];
      RefsRule(p, init, binding);
      FaultsAppend(p, init, [last], binding);
      OneRef(p, last, "", binding);
      PayloadRule(p.records[last], binding);
    }
  }

  lemma NoRefs(p: Predicate, binding: string)
    ensures RefFaults(p, [], binding) == {}
  {
  }

  lemma {:induction false} ClaimsRule(p: Predicate, refs: seq<int>, s: string)
    requires InRange(p, refs)
    ensures s in ArmingPostures(p, refs) <==> exists k :: 0 <= k < |refs| && ClaimsPosture(p.records[refs[k]], s)
  {
    hide ClaimsPosture, RecordPayload, TextMember, ObjString;
    if refs != [] {
      var init, last := refs[..|refs| - 1], refs[|refs| - 1];
      ClaimsRule(p, init, s);
      ClaimOf(p, last, s);
      assert forall k :: 0 <= k < |init| ==> init[k] == refs[k];
      assert ClaimsPosture(p.records[refs[|refs| - 1]], s) <==> ClaimsPosture(p.records[last], s);
    }
  }

  lemma ClaimOf(p: Predicate, i: int, s: string)
    requires 0 <= i < |p.records|
    ensures ClaimsPosture(p.records[i], s) <==>
            RecordKind(p, i) == KIND_ARMING && ObjString(RecordPayload(p, i), POSTURE_DIGEST) == Some(s)
  {
    hide Says, Content, TextMember, Plain, RecordPayload, ObjString;
    var r := p.records[i];
    ContentPlain(r);
    SaysKind(r, KIND_ARMING);
    StringRule(Content(r), POSTURE_DIGEST);
  }

  /** The claims collected agree with the pinned posture. */
  lemma AgreeRule(p: Predicate, row: Row)
    requires InRange(p, row.refs) && InRange(p, Unique(row.refs))
    ensures var claims := ArmingPostures(p, Unique(row.refs));
            (forall i :: 0 <= i < |claims| ==> claims[i] == PinnedDigest(p)) <==> ClaimsAgree(p, row)
  {
    hide ClaimsPosture, ArmingPostures, PinnedDigest;
    var u := Unique(row.refs);
    var claims := ArmingPostures(p, u);
    forall s ensures s in claims <==> exists k :: 0 <= k < |row.refs| && ClaimsPosture(p.records[row.refs[k]], s) {
      ClaimsRule(p, u, s);
      if k :| 0 <= k < |u| && ClaimsPosture(p.records[u[k]], s) {
        assert u[k] in row.refs;
        var j :| 0 <= j < |row.refs| && row.refs[j] == u[k];
      }
      if k :| 0 <= k < |row.refs| && ClaimsPosture(p.records[row.refs[k]], s) {
        assert row.refs[k] in u;
        var j :| 0 <= j < |u| && u[j] == row.refs[k];
      }
    }
    if forall i :: 0 <= i < |claims| ==> claims[i] == PinnedDigest(p) {
      forall k, s | 0 <= k < |row.refs| && ClaimsPosture(p.records[row.refs[k]], s) ensures s == PinnedDigest(p) {
        assert s in claims;
      }
    }
    if ClaimsAgree(p, row) {
      forall i | 0 <= i < |claims| ensures claims[i] == PinnedDigest(p) {
        assert claims[i] in claims;
        var k :| 0 <= k < |row.refs| && ClaimsPosture(p.records[row.refs[k]], claims[i]);
      }
    }
  }

  lemma PinsAndIds(p: Predicate)
    ensures PinnedPosture(p) == PinnedDigest(p) && DeclaredIds(p) == DeclaredAttacks(p)
  {
  }

  lemma CoversRule(p: Predicate, i: int, claims: seq<string>, agreed: bool, issuedAt: int)
    requires 0 <= i < |p.records|
    requires agreed <==> forall k :: 0 <= k < |claims| ==> claims[k] == PinnedDigest(p)
    ensures Covers(p, i, claims, issuedAt) <==>
            KindRule(Content(p.records[i]), PinnedDigest(p), agreed, issuedAt, DeclaredAttacks(p))
  {
    hide KindOk, KindRule, TextMember, Content, RecordPayload, PinnedDigest, PinnedPosture, DeclaredIds, DeclaredAttacks;
    ContentPlain(p.records[i]);
    PinsAndIds(p);
    KindIs(Content(p.records[i]), PinnedDigest(p), claims, issuedAt, DeclaredAttacks(p));
  }

  /** The row's claims, as the check collects them. */
  ghost predicate CoversInRow(p: Predicate, row: Row, i: int, issuedAt: int)
    requires InRange(p, Unique(row.refs)) && 0 <= i < |p.records|
  {
    Covers(p, i, ArmingPostures(p, Unique(row.refs)), issuedAt)
  }

  lemma CoveredAtRule(p: Predicate, row: Row, k: int, kind: string, issuedAt: int)
    requires InRange(p, row.refs) && InRange(p, Unique(row.refs)) && 0 <= k < |row.refs| && kind != ""
    ensures CoveredAt(p, row, k, kind, issuedAt) <==>
            RecordKind(p, row.refs[k]) == kind && CoversInRow(p, row, row.refs[k], issuedAt)
  {
    hide KindRule, Content, TextMember, Says, ClaimsAgree, PinnedDigest, DeclaredAttacks, Covers, RecordPayload, ArmingPostures;
    var r := p.records[row.refs[k]];
    ContentPlain(r);
    SaysKind(r, kind);
    AgreeRule(p, row);
    CoversRule(p, row.refs[k], ArmingPostures(p, Unique(row.refs)), ClaimsAgree(p, row), issuedAt);
  }

  lemma CoveredRule(p: Predicate, row: Row, kind: string, issuedAt: int)
    requires InRange(p, row.refs) && InRange(p, Unique(row.refs)) && kind != ""
    ensures Covered(p, row, kind, issuedAt) <==> Met(p, row.refs, kind, ArmingPostures(p, Unique(row.refs)), issuedAt)
    ensures Covered(p, row, kind, issuedAt) <==> Met(p, Unique(row.refs), kind, ArmingPostures(p, Unique(row.refs)), issuedAt)
  {
    hide CoveredAt, RecordKind, Covers, Unique, ArmingPostures;
    Accepted.MetInUnique(p, row.refs, kind, ArmingPostures(p, Unique(row.refs)), issuedAt);
    forall k | 0 <= k < |row.refs|
      ensures CoveredAt(p, row, k, kind, issuedAt) <==>
              RecordKind(p, row.refs[k]) == kind && CoversInRow(p, row, row.refs[k], issuedAt)
    {
      CoveredAtRule(p, row, k, kind, issuedAt);
    }
  }

  lemma UncoveredRule(p: Predicate, row: Row, req: Requirement, issuedAt: int)
    requires InRange(p, row.refs) && InRange(p, Unique(row.refs)) && req.kind != ""
    ensures var u := Unique(row.refs);
            With({}, !Met(p, u, req.kind, ArmingPostures(p, u), issuedAt), UnmetCode(p, u, req))
            == Uncovered(p, row, req.kind, req.generic, issuedAt)
  {
    hide Covered, Met, FirstFail, FirstIdleOf, FirstOfKind, FirstIdle, Unique, ArmingPostures;
    CoveredRule(p, row, req.kind, issuedAt);
    FirstsRule(p, Unique(row.refs), req.kind);
    OnceIsEnough(p, row.refs, req.kind, "");
  }

  lemma ClassRule(p: Predicate, row: Row, issuedAt: int)
    requires Readable(p) && InRange(p, row.refs) && InRange(p, Unique(row.refs))
    ensures ClassCodes(p, row, Unique(row.refs), ArmingPostures(p, Unique(row.refs)), issuedAt) == ClassFaults(p, row, issuedAt)
  {
    hide Met, UnmetCode, Uncovered, Unique, ArmingPostures, Covered, FirstFail, FirstIdleOf;
    KindsApart();
    var reqs := Requirements(Voc(p), row);
    UncoveredRule(p, row, reqs[0], issuedAt);
    if |reqs| == 2 {
      UncoveredRule(p, row, reqs[1], issuedAt);
    }
  }

  lemma KindNeeded(p: Predicate, row: Row, kind: string)
    requires Readable(p)
    ensures RequiredKind(Voc(p), row, kind) <==>
            if row.method_ == Some("reconstructed") then kind == "examination"
            else if row.containmentObserved in p.env.value.vocabulary.value.caught then kind == "interception"
            else kind == "arming" || kind == "sealed"
  {
    var reqs := Requirements(Voc(p), row);
    assert |reqs| == 2 ==> reqs[0].kind == "arming" && reqs[1].kind == "sealed";
    assert |reqs| >= 1;
  }

  lemma CapRule(p: Predicate, row: Row, issuedAt: int)
    requires Readable(p) && InRange(p, row.refs) && InRange(p, Unique(row.refs))
    ensures CapExceeded(p, row, ArmingPostures(p, Unique(row.refs)), issuedAt) <==> Capped(p, row, issuedAt)
  {
    hide CoveredAt, Says, Content, Covers, RequiredKind, Unique, ArmingPostures, TextMember, RecordPayload;
    MethodsApart();
    KindsApart();
    forall k | 0 <= k < |row.refs|
      ensures RecordMethod(p, row.refs[k]) == METHOD_RECONSTRUCTED <==> Says(Content(p.records[row.refs[k]]), "aeeMethod", "reconstructed")
      ensures RequiredKind(Voc(p), row, RecordKind(p, row.refs[k])) <==>
              if row.method_ == Some("reconstructed") then RecordKind(p, row.refs[k]) == "examination"
              else if row.containmentObserved in p.env.value.vocabulary.value.caught
              then RecordKind(p, row.refs[k]) == "interception"
              else RecordKind(p, row.refs[k]) == "arming" || RecordKind(p, row.refs[k]) == "sealed"
      ensures CoveredAt(p, row, k, "interception", issuedAt) <==>
              RecordKind(p, row.refs[k]) == "interception" && CoversInRow(p, row, row.refs[k], issuedAt)
      ensures CoveredAt(p, row, k, "arming", issuedAt) <==>
              RecordKind(p, row.refs[k]) == "arming" && CoversInRow(p, row, row.refs[k], issuedAt)
      ensures CoveredAt(p, row, k, "sealed", issuedAt) <==>
              RecordKind(p, row.refs[k]) == "sealed" && CoversInRow(p, row, row.refs[k], issuedAt)
    {
      ContentPlain(p.records[row.refs[k]]);
      SaysMethod(p.records[row.refs[k]], METHOD_RECONSTRUCTED);
      KindNeeded(p, row, RecordKind(p, row.refs[k]));
      CoveredAtRule(p, row, k, "interception", issuedAt);
      CoveredAtRule(p, row, k, "arming", issuedAt);
      CoveredAtRule(p, row, k, "sealed", issuedAt);
    }
  }

  lemma MethodsApart()
    ensures METHOD_INTERCEPTED != METHOD_RECONSTRUCTED && METHOD_RECONSTRUCTED != ""
  {
    assert METHOD_INTERCEPTED[0] != METHOD_RECONSTRUCTED[0];
  }

  lemma ShapeRule(p: Predicate, row: Row)
    requires Readable(p)
    ensures var voc := p.env.value.vocabulary.value;
            FailsClosed(Voc(p), row) <==>
              (row.containmentObserved !in voc.labels && row.containmentObserved !in voc.caught)
              || row.method_ !in {Some("intercepted"), Some("reconstructed")}
              || row.attribution !in {Some("pinned"), Some("paired")}
  {
  }

  /** The check of a substrate row raises exactly these codes. */
  lemma RowRules(p: Predicate, row: Row, ctx: Context)
    requires Readable(p) && RefsWellParsed(row)
    ensures RowCodes(p, row, ctx) == RowFaults(p, row, ctx.binding, ctx.issuedAt)
  {
    hide FailsClosed, Unique, PayloadFaults, ArmingPostures, ClassCodes, ClassFaults, CapExceeded, Capped, RefFaults;
    ShapeRule(p, row);
    if ShapeCode(p, row).None? {
      UniqueInRange(p, row);
      var u := Unique(row.refs);
      RefsRule(p, u, ctx.binding);
      OnceIsEnough(p, row.refs, "", ctx.binding);
      ClassRule(p, row, ctx.issuedAt);
      CapRule(p, row, ctx.issuedAt);
    }
  }

  /** A row that the three vocabularies classify, resolving only records bound to this
      run. */
  ghost predicate Resolved(p: Predicate, row: Row, binding: string)
    requires Readable(p)
  {
    var voc := p.env.value.vocabulary.value;
    && (row.containmentObserved in voc.labels || row.containmentObserved in voc.caught)
    && row.method_ in {Some("intercepted"), Some("reconstructed")} && row.attribution in {Some("pinned"), Some("paired")}
    && row.refsPresent && !row.refsErr && row.refs != [] && InRange(p, row.refs)
    && forall k :: 0 <= k < |row.refs| ==> ContentFaults(p.records[row.refs[k]], binding) == {}
  }

  /** The one kind a reconstructed or a caught row needs, and the code where it is
      missing. */
  predicate NeedsKind(p: Predicate, row: Row, kind: string, missing: Code)
    requires Readable(p)
  {
    || (row.method_ == Some("reconstructed") && kind == "examination" && missing == ReconstructedRowUncovered)
    || (row.method_ == Some("intercepted") && row.containmentObserved in p.env.value.vocabulary.value.caught
        && kind == "interception" && missing == CaughtRowUncovered)
  }

  lemma {:induction false} NothingFirst(p: Predicate, refs: seq<int>, kind: string)
    requires InRange(p, refs)
    requires forall k :: 0 <= k < |refs| ==>
               !Says(Content(p.records[refs[k]]), "aeeKind", kind) && IdleOf(Content(p.records[refs[k]])).None?
    ensures FirstFail(p, refs, kind).None? && FirstIdleOf(p, refs).None?
  {
    hide Says, IdleOf, FailOf, Content;
    if refs != [] {
      NothingFirst(p, refs[1..], kind);
    }
  }

  lemma {:induction false} NoRefFaults(p: Predicate, refs: seq<int>, binding: string)
    requires InRange(p, refs) && forall k :: 0 <= k < |refs| ==> ContentFaults(p.records[refs[k]], binding) == {}
    ensures RefFaults(p, refs, binding) == {}
  {
    hide ContentFaults;
    if refs != [] {
      NoRefFaults(p, refs[1..], binding);
    }
  }

  /** A resolved row with a valid record of the kind it needs, and no stronger a method
      than that record, raises nothing; without a record of the kind, valid or not, and
      without one that never covers, it raises the one code of its method and label. */
  lemma RowByMethod(p: Predicate, row: Row, ctx: Context, kind: string, missing: Code)
    requires Readable(p) && RefsWellParsed(row) && Resolved(p, row, ctx.binding) && NeedsKind(p, row, kind, missing)
    ensures Covered(p, row, kind, ctx.issuedAt) && !Capped(p, row, ctx.issuedAt) ==>
              RowFaults(p, row, ctx.binding, ctx.issuedAt) == {} && RowOk(p, row, ctx)
    ensures (forall k :: 0 <= k < |row.refs| ==>
               !Says(Content(p.records[row.refs[k]]), "aeeKind", kind) && IdleOf(Content(p.records[row.refs[k]])).None?) ==>
              RowFaults(p, row, ctx.binding, ctx.issuedAt) == {missing} && RowCodes(p, row, ctx) == {missing}
  {
    hide ContentFaults, Says, Content, IdleOf, KindRule, Capped, RefFaults, RowCodes, FirstFail, FirstIdleOf;
    RowRules(p, row, ctx);
    NoRefFaults(p, row.refs, ctx.binding);
    if forall k :: 0 <= k < |row.refs| ==>
         !Says(Content(p.records[row.refs[k]]), "aeeKind", kind) && IdleOf(Content(p.records[row.refs[k]])).None? {
      NothingFirst(p, row.refs, kind);
    }
  }
}
