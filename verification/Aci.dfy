/** The nineteen checks of corpora/aci.go: their outcome is the worst severity of each
    code that fires, whatever the order of the checks, and it can only grow with the
    conformance level. */
module Aci {
  import opened Core
  import opened Json
  import opened Payloads
  import Utf8
  import CorpusManifest

  datatype Kind = Identity | Capability | Knowledge | Trust | Agent

  datatype Code =
    | SER001 | LVL001 | LVL002 | REQ001 | IDF001 | IDF002 | IDF003 | TS001 | CON001 | CON002
    | DIS001 | DIS002 | DIS003 | EXT001 | EXT002 | AGT001 | BLK001 | LIF001 | LIF002

  datatype Severity = Note | Warning | Violation

  function Rank(s: Severity): nat {
    match s
    case Note => 0
    case Warning => 1
    case Violation => 2
  }

  type Fields = map<string, Value>
  type Files = map<string, string>

  // Decoders and scanners of text that are not modelled.
  const DECODE_OBJECT: string -> Option<Fields>
  const IS_TIMESTAMP: string -> bool
  const IS_DATE: string -> bool
  /** Base names of the inline link targets of llms.txt. */
  const LINKED_NAMES: string -> set<string>

  const KINDS: seq<Kind> := [Identity, Capability, Knowledge, Trust, Agent]

  function FileOf(k: Kind): string {
    match k
    case Identity => "identity.json"
    case Capability => "capabilities.json"
    case Knowledge => "knowledge.json"
    case Trust => "trust.json"
    case Agent => "agents.json"
  }

  function NameOfKind(k: Kind): string {
    match k
    case Identity => "identity"
    case Capability => "capability"
    case Knowledge => "knowledge"
    case Trust => "trust"
    case Agent => "agent"
  }

  type Level = n: int | 1 <= n <= 3 witness 1

  /** aciLevelManifests. */
  function Manifests(level: Level): seq<Kind> {
    if level == 1 then [Identity, Capability]
    else if level == 2 then [Identity, Capability, Knowledge, Trust]
    else [Identity, Capability, Knowledge, Trust, Agent]
  }

  function RequiredFields(k: Kind): seq<string> {
    ["manifest_version", "last_updated", "publisher"] + if k.Identity? then ["identifiers"] else []
  }

  function OptionalFields(k: Kind): seq<string> {
    match k
    case Identity => ["jurisdiction", "registration_number", "website", "contact", "social", "brand", "description"]
    case Capability => ["industries", "pricing_model", "documentation"]
    case Knowledge => ["domain", "domain_label"]
    case Trust => ["certifications", "patents", "compliance", "signatures", "history"]
    case Agent => ["authentication"]
  }

  function Blocks(k: Kind): seq<string> {
    match k
    case Identity => []
    case Capability => ["products", "services", "solutions"]
    case Knowledge => ["concepts"]
    case Trust => ["assertions"]
    case Agent => ["agents"]
  }

  const UNIVERSAL: seq<string> := ["manifest_version", "last_updated", "publisher", "schema_version", "discovery"]
  const LIFECYCLE: set<string> := {"active", "deprecated", "superseded", "withdrawn"}
  const MAX_IDENTIFIER: nat := 128

  predicate Known(k: Kind, name: string) {
    name in UNIVERSAL || name in RequiredFields(k) || name in OptionalFields(k) || name in Blocks(k)
  }

  // ----- firing -----

  datatype Firing = Firing(code: Code, severity: Severity)

  function When(cond: bool, c: Code, s: Severity): set<Firing> {
    if cond then {Firing(c, s)} else {}
  }

  /** Each code that fired, at the highest severity at which it did. */
  ghost predicate Summarizes(codes: map<Code, Severity>, fired: set<Firing>) {
    && (forall c :: c in codes ==> Firing(c, codes[c]) in fired)
    && (forall f :: f in fired ==> f.code in codes && Rank(f.severity) <= Rank(codes[f.code]))
  }

  /** What fired settles the outcome, so the order of the checks and of the iterations
      inside them does not reach it. */
  lemma SummaryUnique(a: map<Code, Severity>, b: map<Code, Severity>, fired: set<Firing>)
    requires Summarizes(a, fired) && Summarizes(b, fired)
    ensures a == b
  {
    forall c ensures c in a <==> c in b {
      assert c in a ==> Firing(c, a[c]) in fired;
      assert c in b ==> Firing(c, b[c]) in fired;
    }
    forall c | c in a ensures a[c] == b[c] {
      assert Firing(c, a[c]) in fired && Firing(c, b[c]) in fired;
      assert Rank(a[c]) == Rank(b[c]);
    }
  }

  /** The codes map and the fire closure of aciRun. */
  class Recorder {
    var codes: map<Code, Severity>
    ghost var fired: set<Firing>

    ghost predicate Valid()
      reads this
    {
      Summarizes(codes, fired)
    }

    constructor ()
      ensures Valid() && fired == {}
    {
      codes, fired := map[], {};
    }

    lemma Summary()
      requires Valid()
      ensures Summarizes(codes, fired)
    {
    }

    method Fire(c: Code, s: Severity)
      requires Valid()
      modifies this
      ensures Valid() && fired == old(fired) + {Firing(c, s)}
    {
      if c !in codes || Rank(s) > Rank(codes[c]) {
        codes := codes[c := s];
      }
      fired := fired + {Firing(c, s)};
    }

    method FireIf(cond: bool, c: Code, s: Severity)
      requires Valid()
      modifies this
      ensures Valid() && fired == old(fired) + When(cond, c, s)
    {
      if cond {
        Fire(c, s);
      }
    }
  }

  // ----- reading a deployment -----

  /** decoded[kind]. */
  function Decoded(files: Files, k: Kind): Option<Fields> {
    if FileOf(k) in files then DECODE_OBJECT(files[FileOf(k)]) else None
  }

  function ArrayAt(fields: Fields, name: string): Option<seq<Value>> {
    if name in fields && fields[name].Arr? then Some(fields[name].items) else None
  }

  function TextAt(fields: Fields, name: string): Option<string> {
    if name in fields && fields[name].Str? then Some(fields[name].s) else None
  }

  // ----- what each check fires -----

  predicate Undecodable(files: Files, k: Kind) {
    FileOf(k) in files && DECODE_OBJECT(files[FileOf(k)]).None?
  }

  function SerialFirings(files: Files): set<Firing> {
    When(exists i :: 0 <= i < |KINDS| && Undecodable(files, KINDS[i]), SER001, Violation)
  }

  function PresenceFirings(files: Files, level: Level): set<Firing> {
    When(exists i :: 0 <= i < |Manifests(level)| && FileOf(Manifests(level)[i]) !in files, LVL001, Violation)
  }

  predicate LacksField(k: Kind, fields: Fields) {
    exists i :: 0 <= i < |RequiredFields(k)| && RequiredFields(k)[i] !in fields
  }

  /** aciCheckTimestamp: the severity it fires at, if it fires. */
  function TimestampFault(fields: Fields): Option<Severity> {
    if "last_updated" !in fields then None
    else if !fields["last_updated"].Str? then Some(Violation)
    else if IS_TIMESTAMP(fields["last_updated"].s) then None
    else if IS_DATE(fields["last_updated"].s) then Some(Warning)
    else Some(Violation)
  }

  predicate Extension(name: string) {
    |name| >= 2 && name[..2] == "x-"
  }

  predicate Redefines(k: Kind, fields: Fields) {
    exists name :: name in fields && Extension(name) && Known(k, name[2..])
  }

  predicate Unprefixed(k: Kind, fields: Fields) {
    exists name :: name in fields && !Extension(name) && !Known(k, name)
  }

  /** The firings of the checks made on one required manifest. */
  function ManifestFirings(files: Files, k: Kind): set<Firing> {
    var d := Decoded(files, k);
    if d.None? then {}
    else
      When(LacksField(k, d.value), REQ001, Violation)
      + (if TimestampFault(d.value).Some? then {Firing(TS001, TimestampFault(d.value).value)} else {})
      + When(Redefines(k, d.value), EXT002, Violation)
      + When(Unprefixed(k, d.value), EXT001, Violation)
  }

  function AllManifestFirings(files: Files, kinds: seq<Kind>): set<Firing> {
    if kinds == [] then {} else AllManifestFirings(files, kinds[..|kinds| - 1]) + ManifestFirings(files, kinds[|kinds| - 1])
  }

  /** aciEntities, over a list of kinds. */
  function Objects(items: seq<Value>): seq<Value> {
    if items == [] then [] else Objects(items[..|items| - 1]) + if items[|items| - 1].Obj? then [items[|items| - 1]] else []
  }

  function BlockEntities(fields: Fields, blocks: seq<string>): seq<Value> {
    if blocks == [] then []
    else
      var a := ArrayAt(fields, blocks[|blocks| - 1]);
      BlockEntities(fields, blocks[..|blocks| - 1]) + if a.Some? then Objects(a.value) else []
  }

  function Entities(files: Files, kinds: seq<Kind>): seq<Value> {
    if kinds == [] then []
    else
      var k := kinds[|kinds| - 1];
      var d := Decoded(files, k);
      Entities(files, kinds[..|kinds| - 1]) + if d.Some? then BlockEntities(d.value, Blocks(k)) else []
  }

  /** The identifiers an entry of the identifiers array carries. */
  function EntryIds(v: Value): seq<string> {
    if v.Str? then [v.s]
    else if ObjString(v, "id").Some? then [ObjString(v, "id").value]
    else []
  }

  function IdsOf(items: seq<Value>): seq<string> {
    if items == [] then [] else IdsOf(items[..|items| - 1]) + EntryIds(items[|items| - 1])
  }

  function EntityIds(entities: seq<Value>): seq<string> {
    if entities == [] then []
    else
      var id := ObjString(entities[|entities| - 1], "id");
      EntityIds(entities[..|entities| - 1]) + if id.Some? then [id.value] else []
  }

  /** aciIdentifierValues. */
  function IdentifierValues(files: Files, level: Level): seq<string> {
    var d := Decoded(files, Identity);
    (if d.Some? && ArrayAt(d.value, "identifiers").Some? then IdsOf(ArrayAt(d.value, "identifiers").value) else [])
    + EntityIds(Entities(files, Manifests(level)))
  }

  predicate Alnum(c: char) {
    'A' <= c <= 'Z' || 'a' <= c <= 'z' || '0' <= c <= '9'
  }

  /** The grammar of section 10.1: dotted segments that begin with a letter or
      digit. */
  predicate IdentifierGrammar(s: string) {
    && s != [] && Alnum(s[0]) && s[|s| - 1] != '.'
    && (forall i :: 0 <= i < |s| ==> Alnum(s[i]) || s[i] == '_' || s[i] == '-' || s[i] == '.')
    && forall i :: 0 < i < |s| && s[i - 1] == '.' ==> Alnum(s[i])
  }

  predicate BadIdentifiers(files: Files) {
    var d := Decoded(files, Identity);
    d.Some? && "identifiers" in d.value && (!d.value["identifiers"].Arr? || d.value["identifiers"].items == [])
  }

  predicate SomeUngrammatical(ids: seq<string>) {
    exists i :: 0 <= i < |ids| && !IdentifierGrammar(ids[i])
  }

  predicate SomeTooLong(ids: seq<string>) {
    exists i :: 0 <= i < |ids| && |Utf8.EncodeString(ids[i])| > MAX_IDENTIFIER
  }

  function IdentifierFirings(files: Files, level: Level): set<Firing> {
    When(BadIdentifiers(files), IDF001, Violation)
    + When(SomeUngrammatical(IdentifierValues(files, level)), IDF002, Violation)
    + When(SomeTooLong(IdentifierValues(files, level)), IDF003, Violation)
  }

  /** Two required manifests give the field two values. */
  predicate Disagree(files: Files, kinds: seq<Kind>, field: string) {
    exists i, j :: 0 <= i < |kinds| && 0 <= j < |kinds| && FieldText(files, kinds[i], field).Some?
      && FieldText(files, kinds[j], field).Some? && FieldText(files, kinds[i], field) != FieldText(files, kinds[j], field)
  }

  function FieldText(files: Files, k: Kind, field: string): Option<string> {
    var d := Decoded(files, k);
    if d.Some? then TextAt(d.value, field) else None
  }

  function ConsistencyFirings(files: Files, level: Level): set<Firing> {
    When(Disagree(files, Manifests(level), "manifest_version"), CON001, Violation)
    + When(Disagree(files, Manifests(level), "publisher"), CON002, Violation)
  }

  const LLMS: string := "llms.txt"
  const WELL_KNOWN: string := ".well-known/aci"
  const DISCOVERY_FIELDS: seq<string> := ["aci_version", "last_updated", "manifests"]

  predicate Unlinked(files: Files, kinds: seq<Kind>) {
    LLMS !in files || exists i :: 0 <= i < |kinds| && FileOf(kinds[i]) !in LINKED_NAMES(files[LLMS])
  }

  predicate LacksDiscoveryField(fields: Fields) {
    exists i :: 0 <= i < |DISCOVERY_FIELDS| && DISCOVERY_FIELDS[i] !in fields
  }

  predicate Unlisted(manifests: Value, kinds: seq<Kind>) {
    exists i :: 0 <= i < |kinds| && MemberOf(manifests, NameOfKind(kinds[i])).None?
  }

  function WellKnownFirings(files: Files, kinds: seq<Kind>): set<Firing> {
    if WELL_KNOWN !in files then {Firing(DIS002, Warning)}
    else if DECODE_OBJECT(files[WELL_KNOWN]).None? then {Firing(DIS002, Violation)}
    else
      var fields := DECODE_OBJECT(files[WELL_KNOWN]).value;
      When(LacksDiscoveryField(fields), DIS002, Violation)
      + When("manifests" in fields && (!fields["manifests"].Obj? || Unlisted(fields["manifests"], kinds)), DIS003, Violation)
  }

  function DiscoveryFirings(files: Files, level: Level): set<Firing> {
    When(Unlinked(files, Manifests(level)), DIS001, Violation) + WellKnownFirings(files, Manifests(level))
  }

  /** A decoded manifest none of whose blocks holds anything. */
  predicate Unpopulated(files: Files, k: Kind) {
    var d := Decoded(files, k);
    d.Some? && forall i :: 0 <= i < |Blocks(k)| ==>
      var a := ArrayAt(d.value, Blocks(k)[i]); a.None? || a.value == []
  }

  function BlockFirings(files: Files, level: Level): set<Firing> {
    When(exists i :: 1 <= i < |Manifests(level)| && Unpopulated(files, Manifests(level)[i]), BLK001, Warning)
  }

  function StatusOf(entity: Value): string {
    TextMember(entity, "status")
  }

  predicate BadStatus(entity: Value) {
    StatusOf(entity) != "" && StatusOf(entity) !in LIFECYCLE
  }

  predicate Unreplaced(entity: Value) {
    StatusOf(entity) == "superseded" && TextMember(entity, "superseded_by") == ""
  }

  function LifecycleFirings(files: Files, level: Level): set<Firing> {
    var entities := Entities(files, Manifests(level));
    When(exists i :: 0 <= i < |entities| && BadStatus(entities[i]), LIF001, Warning)
    + When(exists i :: 0 <= i < |entities| && Unreplaced(entities[i]), LIF002, Warning)
  }

  predicate Operational(agent: Value) {
    var iface := MemberOf(agent, "interface");
    iface.Some? && iface.value.Obj? && iface.value.members != []
  }

  /** An entry that is no object, has no id, or repeats an earlier one. */
  predicate BadAgent(items: seq<Value>, i: nat)
    requires i < |items|
  {
    || !items[i].Obj? || TextMember(items[i], "id") == ""
    || exists j :: 0 <= j < i && items[j].Obj? && TextMember(items[j], "id") == TextMember(items[i], "id")
  }

  function AgentFirings(files: Files): set<Firing> {
    var d := Decoded(files, Agent);
    if d.None? then {}
    else
      var a := ArrayAt(d.value, "agents");
      if a.None? || a.value == [] then {Firing(LVL002, Violation)}
      else
        When(exists i :: 0 <= i < |a.value| && BadAgent(a.value, i), AGT001, Violation)
        + When(!exists i :: 0 <= i < |a.value| && Operational(a.value[i]), LVL002, Violation)
  }

  /** Everything that fires at a level. */
  function Firings(files: Files, level: Level): set<Firing> {
    SerialFirings(files) + PresenceFirings(files, level) + AllManifestFirings(files, Manifests(level))
    + IdentifierFirings(files, level) + ConsistencyFirings(files, level) + DiscoveryFirings(files, level)
    + BlockFirings(files, level) + LifecycleFirings(files, level)
    + if level >= 3 then AgentFirings(files) else {}
  }

  // ----- the checks as they run -----

  method CheckSerial(files: Files, r: Recorder)
    requires r.Valid()
    modifies r
    ensures r.Valid() && r.fired == old(r.fired) + SerialFirings(files)
  {
    hide Summarizes;
    for i := 0 to |KINDS|
      invariant r.Valid()
      invariant r.fired == old(r.fired) + When(exists k :: 0 <= k < i && Undecodable(files, KINDS[k]), SER001, Violation)
    {
      r.FireIf(Undecodable(files, KINDS[i]), SER001, Violation);
    }
  }

  method CheckPresence(files: Files, level: Level, r: Recorder)
    requires r.Valid()
    modifies r
    ensures r.Valid() && r.fired == old(r.fired) + PresenceFirings(files, level)
  {
    hide Summarizes;
    var required := Manifests(level);
    for i := 0 to |required|
      invariant r.Valid()
      invariant r.fired == old(r.fired) + When(exists k :: 0 <= k < i && FileOf(required[k]) !in files, LVL001, Violation)
    {
      r.FireIf(FileOf(required[i]) !in files, LVL001, Violation);
    }
  }

  /** aciCheckExtensions. */
  method CheckExtensions(k: Kind, fields: Fields, r: Recorder)
    requires r.Valid()
    modifies r
    ensures r.Valid()
    ensures r.fired == old(r.fired) + When(Redefines(k, fields), EXT002, Violation) + When(Unprefixed(k, fields), EXT001, Violation)
  {
    hide Known, Summarizes;
    var names := CorpusManifest.SortedKeys(fields);
    for i := 0 to |names|
      invariant r.Valid()
      invariant r.fired == old(r.fired)
        + When(exists j :: 0 <= j < i && Extension(names[j]) && Known(k, names[j][2..]), EXT002, Violation)
        + When(exists j :: 0 <= j < i && !Extension(names[j]) && !Known(k, names[j]), EXT001, Violation)
    {
      if Extension(names[i]) {
        r.FireIf(Known(k, names[i][2..]), EXT002, Violation);
      } else {
        r.FireIf(!Known(k, names[i]), EXT001, Violation);
      }
    }
    NamesAll(k, fields, names);
  }

  lemma NamesAll(k: Kind, fields: Fields, names: seq<string>)
    requires forall n :: n in names <==> n in fields
    ensures Redefines(k, fields) <==> exists j :: 0 <= j < |names| && Extension(names[j]) && Known(k, names[j][2..])
    ensures Unprefixed(k, fields) <==> exists j :: 0 <= j < |names| && !Extension(names[j]) && !Known(k, names[j])
  {
    hide Known;
    if Redefines(k, fields) {
      var n :| n in fields && Extension(n) && Known(k, n[2..]);
      var j :| 0 <= j < |names| && names[j] == n;
    }
    if Unprefixed(k, fields) {
      var n :| n in fields && !Extension(n) && !Known(k, n);
      var j :| 0 <= j < |names| && names[j] == n;
    }
  }

  method CheckRequired(k: Kind, fields: Fields, r: Recorder)
    requires r.Valid()
    modifies r
    ensures r.Valid() && r.fired == old(r.fired) + When(LacksField(k, fields), REQ001, Violation)
  {
    hide Summarizes;
    var required := RequiredFields(k);
    for i := 0 to |required|
      invariant r.Valid()
      invariant r.fired == old(r.fired) + When(exists j :: 0 <= j < i && required[j] !in fields, REQ001, Violation)
    {
      r.FireIf(required[i] !in fields, REQ001, Violation);
    }
  }

  /** The body of the loop over the required manifests. */
  method CheckManifest(files: Files, k: Kind, r: Recorder)
    requires r.Valid()
    modifies r
    ensures r.Valid() && r.fired == old(r.fired) + ManifestFirings(files, k)
  {
    hide Redefines, Unprefixed, TimestampFault, Summarizes, LacksField, Decoded;
    var d := Decoded(files, k);
    if d.None? {
      return;
    }
    CheckRequired(k, d.value, r);
    var fault := TimestampFault(d.value);
    if fault.Some? {
      r.Fire(TS001, fault.value);
    }
    CheckExtensions(k, d.value, r);
  }

  method CheckManifests(files: Files, level: Level, r: Recorder)
    requires r.Valid()
    modifies r
    ensures r.Valid() && r.fired == old(r.fired) + AllManifestFirings(files, Manifests(level))
  {
    hide Summarizes, ManifestFirings;
    var required := Manifests(level);
    for i := 0 to |required|
      invariant r.Valid()
      invariant r.fired == old(r.fired) + AllManifestFirings(files, required[..i])
    {
      assert required[..i + 1][..i] == required[..i];
      CheckManifest(files, required[i], r);
    }
    assert required[..|required|] == required;
  }

  /** aciCheckIdentifiers. */
  method CheckIdentifiers(files: Files, level: Level, r: Recorder)
    requires r.Valid()
    modifies r
    ensures r.Valid() && r.fired == old(r.fired) + IdentifierFirings(files, level)
  {
    hide IdentifierGrammar, IdentifierValues, BadIdentifiers, Summarizes, Utf8.EncodeString;
    r.FireIf(BadIdentifiers(files), IDF001, Violation);
    var ids := IdentifierValues(files, level);
    for i := 0 to |ids|
      invariant r.Valid()
      invariant r.fired == old(r.fired) + When(BadIdentifiers(files), IDF001, Violation)
        + When(exists j :: 0 <= j < i && !IdentifierGrammar(ids[j]), IDF002, Violation)
        + When(exists j :: 0 <= j < i && |Utf8.EncodeString(ids[j])| > MAX_IDENTIFIER, IDF003, Violation)
    {
      r.FireIf(!IdentifierGrammar(ids[i]), IDF002, Violation);
      r.FireIf(|Utf8.EncodeString(ids[i])| > MAX_IDENTIFIER, IDF003, Violation);
    }
  }

  /** The loop of aciCheckConsistency that collects one field's values. */
  method CollectValues(files: Files, kinds: seq<Kind>, field: string) returns (several: bool)
    ensures several <==> Disagree(files, kinds, field)
  {
    hide FieldText;
    var values: set<string> := {};
    for i := 0 to |kinds|
      invariant forall v :: v in values <==> exists k :: 0 <= k < i && FieldText(files, kinds[k], field) == Some(v)
    {
      var text := FieldText(files, kinds[i], field);
      if text.Some? {
        values := values + {text.value};
      }
    }
    several := |values| > 1;
    SeveralMeans(values);
    if Disagree(files, kinds, field) {
      var i, j :| 0 <= i < |kinds| && 0 <= j < |kinds| && FieldText(files, kinds[i], field).Some?
        && FieldText(files, kinds[j], field).Some? && FieldText(files, kinds[i], field) != FieldText(files, kinds[j], field);
      assert FieldText(files, kinds[i], field).value in values && FieldText(files, kinds[j], field).value in values;
    }
  }

  lemma SeveralMeans(values: set<string>)
    ensures |values| > 1 <==> exists a, b :: a in values && b in values && a != b
  {
    if |values| > 1 {
      var a :| a in values;
      assert |values - {a}| > 0;
      var b :| b in values - {a};
    }
    if a, b :| a in values && b in values && a != b {
      assert {a, b} <= values;
      Sizes({a, b}, values);
    }
  }

  lemma Sizes(a: set<string>, b: set<string>)
    requires a <= b
    ensures |a| <= |b|
  {
    assert b == a + (b - a);
  }

  method CheckConsistency(files: Files, level: Level, r: Recorder)
    requires r.Valid()
    modifies r
    ensures r.Valid() && r.fired == old(r.fired) + ConsistencyFirings(files, level)
  {
    hide Disagree;
    var versions := CollectValues(files, Manifests(level), "manifest_version");
    r.FireIf(versions, CON001, Violation);
    var publishers := CollectValues(files, Manifests(level), "publisher");
    r.FireIf(publishers, CON002, Violation);
  }

  /** aciCheckDiscovery. */
  method CheckDiscovery(files: Files, level: Level, r: Recorder)
    requires r.Valid()
    modifies r
    ensures r.Valid() && r.fired == old(r.fired) + DiscoveryFirings(files, level)
  {
    hide Summarizes, Unlinked, WellKnownFirings, Manifests;
    CheckLinks(files, Manifests(level), r);
    CheckWellKnown(files, Manifests(level), r);
  }

  method CheckLinks(files: Files, kinds: seq<Kind>, r: Recorder)
    requires r.Valid()
    modifies r
    ensures r.Valid() && r.fired == old(r.fired) + When(Unlinked(files, kinds), DIS001, Violation)
  {
    hide Summarizes;
    if LLMS !in files {
      r.Fire(DIS001, Violation);
      return;
    }
    for i := 0 to |kinds|
      invariant r.Valid()
      invariant r.fired == old(r.fired)
        + When(exists j :: 0 <= j < i && FileOf(kinds[j]) !in LINKED_NAMES(files[LLMS]), DIS001, Violation)
    {
      r.FireIf(FileOf(kinds[i]) !in LINKED_NAMES(files[LLMS]), DIS001, Violation);
    }
  }

  /** The part on .well-known/aci. */
  method CheckWellKnown(files: Files, kinds: seq<Kind>, r: Recorder)
    requires r.Valid()
    modifies r
    ensures r.Valid() && r.fired == old(r.fired) + WellKnownFirings(files, kinds)
  {
    hide Summarizes, LacksDiscoveryField, Unlisted;
    if WELL_KNOWN !in files {
      r.Fire(DIS002, Warning);
      return;
    }
    if DECODE_OBJECT(files[WELL_KNOWN]).None? {
      r.Fire(DIS002, Violation);
      return;
    }
    var fields := DECODE_OBJECT(files[WELL_KNOWN]).value;
    CheckDiscoveryFields(fields, r);
    if "manifests" !in fields {
      return;
    }
    if !fields["manifests"].Obj? {
      r.Fire(DIS003, Violation);
      return;
    }
    CheckListed(fields["manifests"], kinds, r);
  }

  method CheckDiscoveryFields(fields: Fields, r: Recorder)
    requires r.Valid()
    modifies r
    ensures r.Valid() && r.fired == old(r.fired) + When(LacksDiscoveryField(fields), DIS002, Violation)
  {
    hide Summarizes;
    for i := 0 to |DISCOVERY_FIELDS|
      invariant r.Valid()
      invariant r.fired == old(r.fired) + When(exists j :: 0 <= j < i && DISCOVERY_FIELDS[j] !in fields, DIS002, Violation)
    {
      r.FireIf(DISCOVERY_FIELDS[i] !in fields, DIS002, Violation);
    }
  }

  method CheckListed(manifests: Value, kinds: seq<Kind>, r: Recorder)
    requires r.Valid()
    modifies r
    ensures r.Valid() && r.fired == old(r.fired) + When(Unlisted(manifests, kinds), DIS003, Violation)
  {
    hide Summarizes, MemberOf;
    for i := 0 to |kinds|
      invariant r.Valid()
      invariant r.fired == old(r.fired)
        + When(exists j :: 0 <= j < i && MemberOf(manifests, NameOfKind(kinds[j])).None?, DIS003, Violation)
    {
      r.FireIf(MemberOf(manifests, NameOfKind(kinds[i])).None?, DIS003, Violation);
    }
  }

  /** aciCheckBlocks: the kinds after identity are the ones blocks are expected of. */
  method CheckBlocks(files: Files, level: Level, r: Recorder)
    requires r.Valid()
    modifies r
    ensures r.Valid() && r.fired == old(r.fired) + BlockFirings(files, level)
  {
    hide Summarizes;
    var kinds := Manifests(level);
    for i := 1 to |kinds|
      invariant r.Valid()
      invariant r.fired == old(r.fired) + When(exists j :: 1 <= j < i && Unpopulated(files, kinds[j]), BLK001, Warning)
    {
      var populated := Populated(files, kinds[i]);
      r.FireIf(Decoded(files, kinds[i]).Some? && !populated, BLK001, Warning);
    }
  }

  method Populated(files: Files, k: Kind) returns (populated: bool)
    ensures Decoded(files, k).Some? ==> (Unpopulated(files, k) <==> !populated)
  {
    populated := false;
    var d := Decoded(files, k);
    if d.Some? {
      for i := 0 to |Blocks(k)|
        invariant populated <==> exists j :: 0 <= j < i && ArrayAt(d.value, Blocks(k)[j]).Some? && ArrayAt(d.value, Blocks(k)[j]).value != []
      {
        var a := ArrayAt(d.value, Blocks(k)[i]);
        if a.Some? && |a.value| > 0 {
          populated := true;
        }
      }
    }
  }

  /** aciCheckLifecycle. */
  method CheckLifecycle(files: Files, level: Level, r: Recorder)
    requires r.Valid()
    modifies r
    ensures r.Valid() && r.fired == old(r.fired) + LifecycleFirings(files, level)
  {
    hide Summarizes, Entities, BadStatus, Unreplaced;
    var entities := Entities(files, Manifests(level));
    for i := 0 to |entities|
      invariant r.Valid()
      invariant r.fired == old(r.fired) + When(exists j :: 0 <= j < i && BadStatus(entities[j]), LIF001, Warning)
        + When(exists j :: 0 <= j < i && Unreplaced(entities[j]), LIF002, Warning)
    {
      r.FireIf(BadStatus(entities[i]), LIF001, Warning);
      r.FireIf(Unreplaced(entities[i]), LIF002, Warning);
    }
  }

  /** aciCheckAgents. */
  method CheckAgents(files: Files, r: Recorder)
    requires r.Valid()
    modifies r
    ensures r.Valid() && r.fired == old(r.fired) + AgentFirings(files)
  {
    hide Summarizes, TextMember, MemberOf;
    var d := Decoded(files, Agent);
    if d.None? {
      return;
    }
    var a := ArrayAt(d.value, "agents");
    if a.None? || |a.value| == 0 {
      r.Fire(LVL002, Violation);
      return;
    }
    var items := a.value;
    var seen: set<string>, operational := {}, false;
    for i := 0 to |items|
      invariant r.Valid()
      invariant forall id :: id in seen <==> exists j :: 0 <= j < i && items[j].Obj? && TextMember(items[j], "id") == id
      invariant operational <==> exists j :: 0 <= j < i && Operational(items[j])
      invariant r.fired == old(r.fired) + When(exists j :: 0 <= j < i && BadAgent(items, j), AGT001, Violation)
    {
      assert BadAgent(items, i) <==> !items[i].Obj? || TextMember(items[i], "id") == "" || TextMember(items[i], "id") in seen;
      r.FireIf(!items[i].Obj? || TextMember(items[i], "id") == "" || TextMember(items[i], "id") in seen, AGT001, Violation);
      if items[i].Obj? {
        seen := seen + {TextMember(items[i], "id")};
      }
      if Operational(items[i]) {
        operational := true;
      }
    }
    r.FireIf(!operational, LVL002, Violation);
  }

  /** aciRun. */
  method Run(files: Files, level: Level) returns (codes: map<Code, Severity>)
    ensures Summarizes(codes, Firings(files, level))
  {
    hide SerialFirings, PresenceFirings, AllManifestFirings, IdentifierFirings, ConsistencyFirings, DiscoveryFirings, BlockFirings,
      LifecycleFirings, AgentFirings, Summarizes, Manifests;
    var r := new Recorder();
    CheckSerial(files, r);
    assert r.fired == SerialFirings(files);
    CheckPresence(files, level, r);
    CheckManifests(files, level, r);
    CheckIdentifiers(files, level, r);
    CheckConsistency(files, level, r);
    CheckDiscovery(files, level, r);
    CheckBlocks(files, level, r);
    CheckLifecycle(files, level, r);
    ghost var before := r.fired;
    if level >= 3 {
      CheckAgents(files, r);
    }
    assert before + {} == before;
    assert r.fired == Firings(files, level);
    codes := r.codes;
    r.Summary();
  }

  // ----- levels are monotone -----

  lemma ManifestsGrow(level: Level)
    requires level < 3
    ensures Manifests(level) <= Manifests(level + 1)
  {
  }

  lemma {:induction false} ManifestFiringsGrow(files: Files, a: seq<Kind>, b: seq<Kind>)
    requires a <= b
    ensures AllManifestFirings(files, a) <= AllManifestFirings(files, b)
  {
    hide ManifestFirings;
    if |a| < |b| {
      var init := b[..|b| - 1];
      assert a <= init;
      ManifestFiringsGrow(files, a, init);
    } else {
      assert a == b;
    }
  }

  lemma {:induction false} EntitiesGrow(files: Files, a: seq<Kind>, b: seq<Kind>)
    requires a <= b
    ensures Entities(files, a) <= Entities(files, b)
  {
    hide BlockEntities, Decoded;
    if |a| < |b| {
      var init := b[..|b| - 1];
      assert a <= init;
      EntitiesGrow(files, a, init);
    } else {
      assert a == b;
    }
  }

  lemma {:induction false} EntityIdsGrow(a: seq<Value>, b: seq<Value>)
    requires a <= b
    ensures EntityIds(a) <= EntityIds(b)
  {
    hide ObjString;
    if |a| < |b| {
      var init := b[..|b| - 1];
      assert a <= init;
      EntityIdsGrow(a, init);
    } else {
      assert a == b;
    }
  }

  lemma IdentifiersGrow(files: Files, level: Level)
    requires level < 3
    ensures IdentifierFirings(files, level) <= IdentifierFirings(files, level + 1)
  {
    hide IdentifierGrammar, Entities, EntityIds, IdsOf, Manifests, BadIdentifiers, Decoded;
    ManifestsGrow(level);
    EntitiesGrow(files, Manifests(level), Manifests(level + 1));
    EntityIdsGrow(Entities(files, Manifests(level)), Entities(files, Manifests(level + 1)));
    var a, b := IdentifierValues(files, level), IdentifierValues(files, level + 1);
    assert a <= b;
    assert forall i :: 0 <= i < |a| ==> a[i] == b[i];
  }

  lemma LifecycleGrows(files: Files, level: Level)
    requires level < 3
    ensures LifecycleFirings(files, level) <= LifecycleFirings(files, level + 1)
  {
    hide Entities, Manifests, BadStatus, Unreplaced;
    ManifestsGrow(level);
    EntitiesGrow(files, Manifests(level), Manifests(level + 1));
    var a, b := Entities(files, Manifests(level)), Entities(files, Manifests(level + 1));
    assert forall i :: 0 <= i < |a| ==> a[i] == b[i];
  }

  lemma ListsGrow(files: Files, level: Level)
    requires level < 3
    ensures PresenceFirings(files, level) <= PresenceFirings(files, level + 1)
    ensures ConsistencyFirings(files, level) <= ConsistencyFirings(files, level + 1)
    ensures DiscoveryFirings(files, level) <= DiscoveryFirings(files, level + 1)
    ensures BlockFirings(files, level) <= BlockFirings(files, level + 1)
  {
    hide Manifests, FieldText, Unpopulated, MemberOf, LacksDiscoveryField;
    ManifestsGrow(level);
    var a, b := Manifests(level), Manifests(level + 1);
    assert forall i :: 0 <= i < |a| ==> a[i] == b[i];
  }

  /** Whatever fires at a level fires at the next. */
  lemma FiringsGrow(files: Files, level: Level)
    requires level < 3
    ensures Firings(files, level) <= Firings(files, level + 1)
  {
    hide SerialFirings, PresenceFirings, AllManifestFirings, IdentifierFirings, ConsistencyFirings, DiscoveryFirings, BlockFirings,
      LifecycleFirings, AgentFirings, Manifests;
    ManifestsGrow(level);
    ManifestFiringsGrow(files, Manifests(level), Manifests(level + 1));
    IdentifiersGrow(files, level);
    ListsGrow(files, level);
    LifecycleGrows(files, level);
  }

  datatype Verdict = Accept | Indeterminate | Reject

  /** The verdict aciCompareVerdict reads off the codes. */
  function VerdictOf(codes: map<Code, Severity>): Verdict {
    if exists c :: c in codes && codes[c] == Violation then Reject
    else if |codes| > 0 then Indeterminate
    else Accept
  }

  function Strictness(v: Verdict): nat {
    match v
    case Accept => 0
    case Indeterminate => 1
    case Reject => 2
  }

  lemma {:induction false} FiringsRise(files: Files, low: Level, high: Level)
    requires low <= high
    ensures Firings(files, low) <= Firings(files, high)
    decreases high - low
  {
    hide Firings;
    if low < high {
      FiringsGrow(files, low);
      FiringsRise(files, low + 1, high);
    }
  }

  /** Levels are monotone: every code of a level is there at every higher one with at
      least its severity, and the verdict is at least as strict. So a deployment accepted
      at a level is accepted at every lower one. */
  lemma LevelsMonotone(files: Files, low: Level, high: Level, a: map<Code, Severity>, b: map<Code, Severity>)
    requires low <= high
    requires Summarizes(a, Firings(files, low)) && Summarizes(b, Firings(files, high))
    ensures forall c :: c in a ==> c in b && Rank(a[c]) <= Rank(b[c])
    ensures Strictness(VerdictOf(a)) <= Strictness(VerdictOf(b))
    ensures VerdictOf(b) == Accept ==> VerdictOf(a) == Accept
  {
    hide Firings;
    FiringsRise(files, low, high);
    forall c | c in a ensures c in b && Rank(a[c]) <= Rank(b[c]) {
      assert Firing(c, a[c]) in Firings(files, high);
    }
    if c :| c in a {
      assert |b| > 0 by {
        assert c in b;
      }
    }
  }
}
