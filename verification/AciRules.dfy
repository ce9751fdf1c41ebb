/** The nineteen checks of corpora/aci.go one by one: when each code fires at a level, and
    at which severity, told over the files of the deployment. */
module AciRules {
  import opened Core
  import opened Json
  import opened Payloads
  import opened Aci
  import Utf8

  // ----- the deployment -----

  function File(k: Kind): string {
    if k.Identity? then "identity.json"
    else if k.Capability? then "capabilities.json"
    else if k.Knowledge? then "knowledge.json"
    else if k.Trust? then "trust.json"
    else "agents.json"
  }

  /** Sections 3.1 to 3.3. */
  predicate Wanted(level: Level, k: Kind) {
    (k.Knowledge? || k.Trust? ==> level >= 2) && (k.Agent? ==> level == 3)
  }

  function Doc(files: Files, k: Kind): Option<Fields> {
    if File(k) in files then DECODE_OBJECT(files[File(k)]) else None
  }

  /** A required manifest that decodes. */
  predicate Present(files: Files, level: Level, k: Kind) {
    Wanted(level, k) && Doc(files, k).Some?
  }

  function Fields(files: Files, k: Kind): Fields
    requires Doc(files, k).Some?
  {
    Doc(files, k).value
  }

  predicate Mandatory(k: Kind, name: string) {
    name in {"manifest_version", "last_updated", "publisher"} || (k.Identity? && name == "identifiers")
  }

  predicate Block(k: Kind, name: string) {
    match k
    case Identity => false
    case Capability => name in {"products", "services", "solutions"}
    case Knowledge => name == "concepts"
    case Trust => name == "assertions"
    case Agent => name == "agents"
  }

  predicate Normative(k: Kind, name: string) {
    || Mandatory(k, name) || Block(k, name) || name in {"schema_version", "discovery"}
    || (match k
        case Identity =>
          name in {"jurisdiction", "registration_number", "website", "contact", "social", "brand", "description"}
        case Capability => name in {"industries", "pricing_model", "documentation"}
        case Knowledge => name in {"domain", "domain_label"}
        case Trust => name in {"certifications", "patents", "compliance", "signatures", "history"}
        case Agent => name == "authentication")
  }

  predicate Prefixed(name: string) {
    |name| >= 2 && name[0] == 'x' && name[1] == '-'
  }

  /** x is an entry of the array under the name. */
  predicate Entered(fields: Fields, name: string, x: Value) {
    name in fields && fields[name].Arr? && x in fields[name].items
  }

  /** An object in a block of a required manifest. */
  predicate EntityIn(files: Files, level: Level, k: Kind, name: string, x: Value) {
    Present(files, level, k) && Block(k, name) && Entered(Fields(files, k), name, x) && x.Obj?
  }

  ghost predicate Entity(files: Files, level: Level, x: Value) {
    exists k, name :: EntityIn(files, level, k, name, x)
  }

  predicate Holds(v: Value, name: string, s: string) {
    ObjString(v, name) == Some(s)
  }

  ghost predicate IdentifierOf(files: Files, level: Level, x: Value, id: string) {
    || (Doc(files, Identity).Some? && Entered(Fields(files, Identity), "identifiers", x) && (x == Str(id) || Holds(x, "id", id)))
    || (Entity(files, level, x) && Holds(x, "id", id))
  }

  predicate LetterOrDigit(c: char) {
    var n := c as int;
    0x30 <= n <= 0x39 || 0x41 <= n <= 0x5A || 0x61 <= n <= 0x7A
  }

  predicate Segment(s: string) {
    s != [] && LetterOrDigit(s[0]) && forall i :: 0 <= i < |s| ==> LetterOrDigit(s[i]) || s[i] == '_' || s[i] == '-'
  }

  /** Section 10.1: segments joined by dots. */
  predicate Dotted(s: string) {
    Segment(s) || exists i :: 0 <= i < |s| && s[i] == '.' && Segment(s[..i]) && Dotted(s[i + 1..])
  }

  // ----- what fires -----

  predicate Gives(files: Files, level: Level, k: Kind, field: string, s: string) {
    Present(files, level, k) && field in Fields(files, k) && Fields(files, k)[field] == Str(s)
  }

  ghost predicate Differ(files: Files, level: Level, field: string) {
    exists k, l, s, t :: Gives(files, level, k, field, s) && Gives(files, level, l, field, t) && s != t
  }

  ghost predicate Misnamed(files: Files, level: Level, k: Kind, name: string, prefixed: bool) {
    && Present(files, level, k) && name in Fields(files, k) && Prefixed(name) == prefixed
    && if prefixed then Normative(k, name[2..]) else !Normative(k, name)
  }

  predicate Stamped(files: Files, level: Level, k: Kind, s: Severity) {
    && Present(files, level, k) && "last_updated" in Fields(files, k)
    && var v := Fields(files, k)["last_updated"];
    && (v.Str? ==> !IS_TIMESTAMP(v.s))
    && s == if v.Str? && IS_DATE(v.s) then Warning else Violation
  }

  predicate EmptyBlocks(files: Files, level: Level, k: Kind) {
    && Present(files, level, k) && !k.Identity?
    && forall name :: name in Fields(files, k) && Block(k, name) && Fields(files, k)[name].Arr? ==> Fields(files, k)[name].items == []
  }

  function WellKnown(files: Files): Option<Fields> {
    if ".well-known/aci" in files then DECODE_OBJECT(files[".well-known/aci"]) else None
  }

  predicate Listing(v: Value, level: Level) {
    v.Obj? && (forall k :: Wanted(level, k) ==> MemberOf(v, ["identity", "capability", "knowledge", "trust", "agent"][Index(k)]).Some?)
  }

  function Index(k: Kind): nat {
    match k
    case Identity => 0
    case Capability => 1
    case Knowledge => 2
    case Trust => 3
    case Agent => 4
  }

  function Agents(files: Files): seq<Value> {
    if Doc(files, Agent).Some? && "agents" in Fields(files, Agent) && Fields(files, Agent)["agents"].Arr?
    then Fields(files, Agent)["agents"].items else []
  }

  /** No object, without a textual non-empty id, or with that of an earlier entry. */
  predicate BadAgentAt(items: seq<Value>, i: nat)
    requires i < |items|
  {
    || !items[i].Obj? || TextMember(items[i], "id") == ""
    || exists j :: 0 <= j < i && items[j].Obj? && TextMember(items[j], "id") == TextMember(items[i], "id")
  }

  predicate Runs(agent: Value) {
    match MemberOf(agent, "interface")
    case Some(Obj(members)) => members != []
    case _ => false
  }

  predicate OddStatus(x: Value) {
    TextMember(x, "status") !in {"", "active", "deprecated", "superseded", "withdrawn"}
  }

  predicate WithoutSuccessor(x: Value) {
    TextMember(x, "status") == "superseded" && TextMember(x, "superseded_by") == ""
  }

  /** When a code fires at a level, with which severity. */
  ghost predicate Fires(files: Files, level: Level, c: Code, s: Severity) {
    match c
    case SER001 => s == Violation && exists k :: File(k) in files && DECODE_OBJECT(files[File(k)]).None?
    case LVL001 => s == Violation && exists k :: Wanted(level, k) && File(k) !in files
    case REQ001 => s == Violation && exists k, name :: Present(files, level, k) && Mandatory(k, name) && name !in Fields(files, k)
    case TS001 => exists k :: Stamped(files, level, k, s)
    case EXT002 => s == Violation && exists k, name :: Misnamed(files, level, k, name, true)
    case EXT001 => s == Violation && exists k, name :: Misnamed(files, level, k, name, false)
    case IDF001 =>
      && s == Violation && Doc(files, Identity).Some? && "identifiers" in Fields(files, Identity)
      && var v := Fields(files, Identity)["identifiers"]; v.Arr? ==> v.items == []
    case IDF002 => s == Violation && exists x, id :: IdentifierOf(files, level, x, id) && !Dotted(id)
    case IDF003 => s == Violation && exists x, id :: IdentifierOf(files, level, x, id) && |Utf8.EncodeString(id)| > 128
    case CON001 => s == Violation && Differ(files, level, "manifest_version")
    case CON002 => s == Violation && Differ(files, level, "publisher")
    case DIS001 =>
      s == Violation && ("llms.txt" !in files || exists k :: Wanted(level, k) && File(k) !in LINKED_NAMES(files["llms.txt"]))
    case DIS002 =>
      if ".well-known/aci" !in files then s == Warning
      else s == Violation && (WellKnown(files).None?
                              || exists name :: name in {"aci_version", "last_updated", "manifests"} && name !in WellKnown(files).value)
    case DIS003 =>
      s == Violation && WellKnown(files).Some? && "manifests" in WellKnown(files).value
      && !Listing(WellKnown(files).value["manifests"], level)
    case BLK001 => s == Warning && exists k :: EmptyBlocks(files, level, k)
    case LIF001 =>
      s == Warning && exists x :: Entity(files, level, x) && OddStatus(x)
    case LIF002 =>
      s == Warning && exists x :: Entity(files, level, x) && WithoutSuccessor(x)
    case AGT001 =>
      s == Violation && level == 3 && exists i :: 0 <= i < |Agents(files)| && BadAgentAt(Agents(files), i)
    case LVL002 =>
      s == Violation && level == 3 && Doc(files, Agent).Some? && forall i :: 0 <= i < |Agents(files)| ==> !Runs(Agents(files)[i])
  }

  // ----- the tables -----

  lemma KindTables(level: Level, k: Kind, name: string)
    ensures File(k) == FileOf(k) && k in KINDS && (k in Manifests(level) <==> Wanted(level, k))
    ensures name in RequiredFields(k) <==> Mandatory(k, name)
    ensures name in Blocks(k) <==> Block(k, name)
    ensures Known(k, name) <==> Normative(k, name)
    ensures Extension(name) <==> Prefixed(name)
  {
    assert name in RequiredFields(k) <==> Mandatory(k, name);
    assert name in Blocks(k) <==> Block(k, name);
    if |name| >= 2 {
      assert name[..2] == [name[0], name[1]];
    }
  }

  lemma DocIs(files: Files, k: Kind)
    ensures Decoded(files, k) == Doc(files, k)
  {
  }

  lemma WantedIndex(level: Level, k: Kind) returns (i: nat)
    requires Wanted(level, k)
    ensures i < |Manifests(level)| && Manifests(level)[i] == k
  {
    i := Index(k);
  }

  lemma IndexWanted(level: Level, i: nat)
    requires i < |Manifests(level)|
    ensures Wanted(level, Manifests(level)[i])
  {
  }

  // ----- check by check -----

  lemma SerialRule(files: Files, level: Level, c: Code, s: Severity)
    ensures Firing(c, s) in SerialFirings(files) <==> c == SER001 && Fires(files, level, c, s)
  {
    if k :| File(k) in files && DECODE_OBJECT(files[File(k)]).None? {
      assert KINDS[Index(k)] == k && Undecodable(files, KINDS[Index(k)]);
    }
    if i :| 0 <= i < |KINDS| && Undecodable(files, KINDS[i]) {
      assert File(KINDS[i]) == FileOf(KINDS[i]);
    }
  }

  lemma PresenceRule(files: Files, level: Level, c: Code, s: Severity)
    ensures Firing(c, s) in PresenceFirings(files, level) <==> c == LVL001 && Fires(files, level, c, s)
  {
    hide Manifests;
    if k :| Wanted(level, k) && File(k) !in files {
      var i := WantedIndex(level, k);
      assert FileOf(Manifests(level)[i]) !in files;
    }
    if i :| 0 <= i < |Manifests(level)| && FileOf(Manifests(level)[i]) !in files {
      IndexWanted(level, i);
      assert File(Manifests(level)[i]) !in files;
    }
  }

  lemma {:induction false} InSomeManifest(files: Files, kinds: seq<Kind>, f: Firing)
    ensures f in AllManifestFirings(files, kinds) <==> exists i :: 0 <= i < |kinds| && f in ManifestFirings(files, kinds[i])
  {
    hide ManifestFirings;
    if kinds != [] {
      var init := kinds[..|kinds| - 1];
      InSomeManifest(files, init, f);
      if i :| 0 <= i < |init| && f in ManifestFirings(files, init[i]) {
        assert f in ManifestFirings(files, kinds[i]);
      }
      if i :| 0 <= i < |kinds| && f in ManifestFirings(files, kinds[i]) {
        assert i < |init| ==> init[i] == kinds[i];
      }
    }
  }

  ghost predicate ManifestFires(files: Files, level: Level, k: Kind, c: Code, s: Severity) {
    match c
    case REQ001 => s == Violation && exists name :: Present(files, level, k) && Mandatory(k, name) && name !in Fields(files, k)
    case TS001 => Stamped(files, level, k, s)
    case EXT002 => s == Violation && exists name :: Misnamed(files, level, k, name, true)
    case EXT001 => s == Violation && exists name :: Misnamed(files, level, k, name, false)
    case _ => false
  }

  lemma StampRule(files: Files, level: Level, k: Kind, s: Severity)
    requires Present(files, level, k)
    ensures Stamped(files, level, k, s) <==> TimestampFault(Fields(files, k)) == Some(s)
  {
    hide Wanted, File;
  }

  lemma ManifestRule(files: Files, level: Level, k: Kind, c: Code, s: Severity)
    requires Wanted(level, k)
    ensures Firing(c, s) in ManifestFirings(files, k) <==> ManifestFires(files, level, k, c, s)
  {
    hide File, Mandatory, LacksField, Redefines, Unprefixed, TimestampFault, Stamped, Misnamed, Wanted, DECODE_OBJECT, Decoded, Doc;
    DocIs(files, k);
    if Doc(files, k).Some? {
      RequiredRule(files, level, k);
      NamesRule(files, level, k);
      StampRule(files, level, k, s);
    } else {
      NothingFires(files, level, k, c, s);
    }
  }

  lemma NothingFires(files: Files, level: Level, k: Kind, c: Code, s: Severity)
    requires Doc(files, k).None?
    ensures !ManifestFires(files, level, k, c, s)
  {
    hide File, Mandatory, Wanted, Doc;
  }

  lemma RequiredRule(files: Files, level: Level, k: Kind)
    requires Present(files, level, k)
    ensures LacksField(k, Fields(files, k)) <==> exists name :: Mandatory(k, name) && name !in Fields(files, k)
  {
    hide Mandatory, RequiredFields, File, Wanted, Doc, Fields;
    var fields := Fields(files, k);
    if i :| 0 <= i < |RequiredFields(k)| && RequiredFields(k)[i] !in fields {
      KindTables(level, k, RequiredFields(k)[i]);
    }
    if name :| Mandatory(k, name) && name !in fields {
      KindTables(level, k, name);
      var i :| 0 <= i < |RequiredFields(k)| && RequiredFields(k)[i] == name;
    }
  }

  lemma NamesRule(files: Files, level: Level, k: Kind)
    requires Present(files, level, k)
    ensures Redefines(k, Fields(files, k)) <==> exists name :: Misnamed(files, level, k, name, true)
    ensures Unprefixed(k, Fields(files, k)) <==> exists name :: Misnamed(files, level, k, name, false)
  {
    hide Known, Normative, Prefixed, File, Wanted, Doc, Fields;
    var fields := Fields(files, k);
    forall name | name in fields
      ensures Misnamed(files, level, k, name, true) <==> Extension(name) && Known(k, name[2..])
      ensures Misnamed(files, level, k, name, false) <==> !Extension(name) && !Known(k, name)
    {
      NameRule(files, level, k, name);
    }
    if name :| name in fields && Extension(name) && Known(k, name[2..]) {
      assert Misnamed(files, level, k, name, true);
    }
    if name :| name in fields && !Extension(name) && !Known(k, name) {
      assert Misnamed(files, level, k, name, false);
    }
  }

  lemma NameRule(files: Files, level: Level, k: Kind, name: string)
    requires Present(files, level, k) && name in Fields(files, k)
    ensures Extension(name) ==> |name| >= 2
    ensures Misnamed(files, level, k, name, true) <==> Extension(name) && Known(k, name[2..])
    ensures Misnamed(files, level, k, name, false) <==> !Extension(name) && !Known(k, name)
  {
    hide Known, Normative, File, Wanted, Doc, Fields;
    KindTables(level, k, name);
    if Extension(name) {
      KindTables(level, k, name[2..]);
    }
  }

  lemma ManifestsRule(files: Files, level: Level, c: Code, s: Severity)
    ensures Firing(c, s) in AllManifestFirings(files, Manifests(level))
            <==> c in {REQ001, TS001, EXT001, EXT002} && Fires(files, level, c, s)
  {
    hide Manifests, ManifestFirings, Wanted, Stamped, Misnamed, Mandatory, Fields, Doc;
    var kinds, f := Manifests(level), Firing(c, s);
    InSomeManifest(files, kinds, f);
    if i :| 0 <= i < |kinds| && f in ManifestFirings(files, kinds[i]) {
      IndexWanted(level, i);
      ManifestRule(files, level, kinds[i], c, s);
    }
    if k :| ManifestFires(files, level, k, c, s) {
      assert Wanted(level, k) by { FiresWanted(files, level, k, c, s); }
      var i := WantedIndex(level, k);
      ManifestRule(files, level, k, c, s);
    }
    ManifestFiresIs(files, level, c, s);
  }

  lemma FiresWanted(files: Files, level: Level, k: Kind, c: Code, s: Severity)
    requires ManifestFires(files, level, k, c, s)
    ensures Wanted(level, k)
  {
    hide Wanted;
  }

  lemma ManifestFiresIs(files: Files, level: Level, c: Code, s: Severity)
    ensures (exists k :: ManifestFires(files, level, k, c, s)) <==> c in {REQ001, TS001, EXT001, EXT002} && Fires(files, level, c, s)
  {
    hide Wanted, Stamped, Misnamed, Mandatory, Fields, Doc;
    if c in {REQ001, TS001, EXT001, EXT002} && Fires(files, level, c, s) {
      match c
      case REQ001 =>
        var k, name :| Present(files, level, k) && Mandatory(k, name) && name !in Fields(files, k);
        assert ManifestFires(files, level, k, c, s);
      case TS001 =>
        var k :| Stamped(files, level, k, s);
        assert ManifestFires(files, level, k, c, s);
      case EXT001 =>
        var k, name :| Misnamed(files, level, k, name, false);
        assert ManifestFires(files, level, k, c, s);
      case EXT002 =>
        var k, name :| Misnamed(files, level, k, name, true);
        assert ManifestFires(files, level, k, c, s);
    }
  }

  // ----- entities and identifiers -----

  lemma {:induction false} InObjects(items: seq<Value>, x: Value)
    ensures x in Objects(items) <==> x in items && x.Obj?
  {
    if items != [] {
      var init, last := items[..|items| - 1], items[|items| - 1];
      InObjects(init, x);
      assert items == init + [last];
    }
  }

  predicate EnteredAt(fields: Fields, blocks: seq<string>, j: int, x: Value) {
    0 <= j < |blocks| && Entered(fields, blocks[j], x)
  }

  lemma {:induction false} InBlocks(fields: Fields, blocks: seq<string>, x: Value)
    ensures x in BlockEntities(fields, blocks) <==> x.Obj? && exists j :: EnteredAt(fields, blocks, j, x)
  {
    if blocks != [] {
      var init, last := blocks[..|blocks| - 1], blocks[|blocks| - 1];
      InBlocks(fields, init, x);
      if ArrayAt(fields, last).Some? {
        InObjects(ArrayAt(fields, last).value, x);
      }
      if j :| EnteredAt(fields, init, j, x) {
        assert EnteredAt(fields, blocks, j, x);
      }
      if j :| EnteredAt(fields, blocks, j, x) {
        assert j < |init| ==> EnteredAt(fields, init, j, x);
      }
      if Entered(fields, last, x) {
        assert EnteredAt(fields, blocks, |init|, x);
      }
    }
  }

  predicate EntityAt(files: Files, kinds: seq<Kind>, i: int, x: Value) {
    0 <= i < |kinds| && Decoded(files, kinds[i]).Some? && x in BlockEntities(Decoded(files, kinds[i]).value, Blocks(kinds[i]))
  }

  lemma {:induction false} InEntities(files: Files, kinds: seq<Kind>, x: Value)
    ensures x in Entities(files, kinds) <==> exists i :: EntityAt(files, kinds, i, x)
  {
    hide Decoded, BlockEntities, Blocks;
    if kinds != [] {
      var init := kinds[..|kinds| - 1];
      InEntities(files, init, x);
      if i :| EntityAt(files, init, i, x) {
        assert EntityAt(files, kinds, i, x);
      }
      if i :| EntityAt(files, kinds, i, x) {
        assert i < |init| ==> EntityAt(files, init, i, x);
      }
      if EntityAt(files, [kinds[|init|]], 0, x) {
        assert EntityAt(files, kinds, |init|, x);
      }
    }
  }

  lemma EntityRule(files: Files, level: Level, x: Value)
    ensures x in Entities(files, Manifests(level)) <==> Entity(files, level, x)
  {
    hide Manifests, Wanted, Blocks, Block, BlockEntities, Decoded, Doc, Entities;
    InEntities(files, Manifests(level), x);
    if i :| EntityAt(files, Manifests(level), i, x) {
      var k := Manifests(level)[i];
      IndexWanted(level, i);
      DocIs(files, k);
      InBlocks(Doc(files, k).value, Blocks(k), x);
      var j :| EnteredAt(Doc(files, k).value, Blocks(k), j, x);
      KindTables(level, k, Blocks(k)[j]);
      assert EntityIn(files, level, k, Blocks(k)[j], x);
    }
    if k, name :| EntityIn(files, level, k, name, x) {
      var i := WantedIndex(level, k);
      DocIs(files, k);
      InBlocks(Doc(files, k).value, Blocks(k), x);
      KindTables(level, k, name);
      var j :| 0 <= j < |Blocks(k)| && Blocks(k)[j] == name;
      assert EnteredAt(Doc(files, k).value, Blocks(k), j, x);
      assert EntityAt(files, Manifests(level), i, x);
    }
  }

  predicate IdAt(items: seq<Value>, i: int, id: string) {
    0 <= i < |items| && id in EntryIds(items[i])
  }

  lemma {:induction false} InIds(items: seq<Value>, id: string)
    ensures id in IdsOf(items) <==> exists i :: IdAt(items, i, id)
  {
    hide EntryIds;
    if items != [] {
      var init := items[..|items| - 1];
      InIds(init, id);
      if i :| IdAt(init, i, id) {
        assert IdAt(items, i, id);
      }
      if i :| IdAt(items, i, id) {
        assert i < |init| ==> IdAt(init, i, id);
      }
      if id in EntryIds(items[|init|]) {
        assert IdAt(items, |init|, id);
      }
    }
  }

  predicate EntityIdAt(entities: seq<Value>, i: int, id: string) {
    0 <= i < |entities| && Holds(entities[i], "id", id)
  }

  lemma {:induction false} InEntityIds(entities: seq<Value>, id: string)
    ensures id in EntityIds(entities) <==> exists i :: EntityIdAt(entities, i, id)
  {
    hide ObjString;
    if entities != [] {
      var init := entities[..|entities| - 1];
      InEntityIds(init, id);
      if i :| EntityIdAt(init, i, id) {
        assert EntityIdAt(entities, i, id);
      }
      if i :| EntityIdAt(entities, i, id) {
        assert i < |init| ==> EntityIdAt(init, i, id);
      }
      if Holds(entities[|init|], "id", id) {
        assert EntityIdAt(entities, |init|, id);
      }
    }
  }

  lemma IdentifierRule(files: Files, level: Level, id: string)
    ensures id in IdentifierValues(files, level) <==> exists x :: IdentifierOf(files, level, x, id)
  {
    hide Entities, Entity, ObjString, Decoded, Doc, Manifests, IdsOf, EntityIds;
    DocIs(files, Identity);
    var d, entities := Doc(files, Identity), Entities(files, Manifests(level));
    InEntityIds(entities, id);
    if i :| EntityIdAt(entities, i, id) {
      EntityRule(files, level, entities[i]);
      assert IdentifierOf(files, level, entities[i], id);
    }
    if d.Some? && ArrayAt(d.value, "identifiers").Some? {
      var items := ArrayAt(d.value, "identifiers").value;
      InIds(items, id);
      if i :| IdAt(items, i, id) {
        assert items[i] in items;
        assert IdentifierOf(files, level, items[i], id);
      }
    }
    if x :| IdentifierOf(files, level, x, id) {
      if Entity(files, level, x) && Holds(x, "id", id) {
        EntityRule(files, level, x);
        var i :| 0 <= i < |entities| && entities[i] == x;
        assert EntityIdAt(entities, i, id);
      } else {
        var items := d.value["identifiers"].items;
        var i :| 0 <= i < |items| && items[i] == x;
        TextHasNoMembers(x, id);
        assert IdAt(items, i, id);
      }
    }
  }

  lemma TextHasNoMembers(x: Value, id: string)
    requires x == Str(id) || Holds(x, "id", id)
    ensures id in EntryIds(x)
  {
  }

  // ----- the grammar of identifiers -----

  lemma {:induction false} GrammarRule(s: string)
    ensures IdentifierGrammar(s) <==> Dotted(s)
    decreases |s|
  {
    if forall i :: 0 <= i < |s| ==> s[i] != '.' {
      forall c ensures Alnum(c) <==> LetterOrDigit(c) {
        AlnumIs(c);
      }
    } else {
      var i := FirstDot(s);
      GrammarRule(s[i + 1..]);
      DottedAt(s, i);
      GrammarAt(s, i);
    }
  }

  lemma {:induction false} FirstDot(s: string) returns (i: nat)
    requires !forall i :: 0 <= i < |s| ==> s[i] != '.'
    ensures i < |s| && s[i] == '.' && forall j :: 0 <= j < i ==> s[j] != '.'
  {
    i := 0;
    while s[i] != '.'
      invariant i < |s| && forall j :: 0 <= j < i ==> s[j] != '.'
      decreases |s| - i
    {
      i := i + 1;
    }
  }

  lemma DottedAt(s: string, i: nat)
    requires i < |s| && s[i] == '.' && forall j :: 0 <= j < i ==> s[j] != '.'
    ensures Dotted(s) <==> Segment(s[..i]) && Dotted(s[i + 1..])
  {
    hide LetterOrDigit;
    NoDot();
    if Dotted(s) {
      assert !Segment(s);
      var k :| 0 <= k < |s| && s[k] == '.' && Segment(s[..k]) && Dotted(s[k + 1..]);
      SegmentStops(s, i, k);
      assert k == i;
    }
  }

  lemma SegmentStops(s: string, i: nat, k: nat)
    requires i < |s| && s[i] == '.' && k < |s|
    ensures k > i ==> !Segment(s[..k])
  {
    if k > i {
      assert s[..k][i] == '.';
    }
  }

  lemma NoDot()
    ensures !LetterOrDigit('.')
  {
  }

  lemma AlnumIs(c: char)
    ensures Alnum(c) <==> LetterOrDigit(c)
  {
  }

  lemma GrammarAt(s: string, i: nat)
    requires i < |s| && s[i] == '.' && forall j :: 0 <= j < i ==> s[j] != '.'
    ensures IdentifierGrammar(s) <==> Segment(s[..i]) && IdentifierGrammar(s[i + 1..])
  {
    hide Alnum, LetterOrDigit;
    forall c ensures Alnum(c) <==> LetterOrDigit(c) {
      AlnumIs(c);
    }
    NoDot();
    var first, more := s[..i], s[i + 1..];
    if IdentifierGrammar(s) {
      assert more[0] == s[i + 1] && s[i + 1 - 1] == '.';
      forall j | 0 < j < |more| && more[j - 1] == '.' ensures Alnum(more[j]) {
        assert s[i + 1 + j - 1] == '.' && s[i + 1 + j] == more[j];
      }
      forall j | 0 <= j < |more| ensures Alnum(more[j]) || more[j] == '_' || more[j] == '-' || more[j] == '.' {
        assert more[j] == s[i + 1 + j];
      }
    }
    if Segment(first) && IdentifierGrammar(more) {
      forall j | 0 <= j < |s| ensures Alnum(s[j]) || s[j] == '_' || s[j] == '-' || s[j] == '.' {
        assert j < i ==> s[j] == first[j];
        assert j > i ==> s[j] == more[j - i - 1];
      }
      forall j | 0 < j < |s| && s[j - 1] == '.' ensures Alnum(s[j]) {
        assert j > i;
        assert s[j] == more[j - i - 1];
        assert j > i + 1 ==> s[j - 1] == more[j - i - 2];
      }
      assert s[0] == first[0] && s[|s| - 1] == more[|more| - 1];
    }
  }

  // ----- the other checks -----

  lemma BadIdentifiersRule(files: Files, level: Level)
    ensures BadIdentifiers(files) <==> Fires(files, level, IDF001, Violation)
  {
    DocIs(files, Identity);
  }

  lemma UngrammaticalRule(files: Files, level: Level)
    ensures SomeUngrammatical(IdentifierValues(files, level)) <==> Fires(files, level, IDF002, Violation)
  {
    hide IdentifierValues, IdentifierOf, IdentifierGrammar, Dotted;
    var ids := IdentifierValues(files, level);
    if i :| 0 <= i < |ids| && !IdentifierGrammar(ids[i]) {
      IdentifierRule(files, level, ids[i]);
      GrammarRule(ids[i]);
    }
    if x, id :| IdentifierOf(files, level, x, id) && !Dotted(id) {
      IdentifierRule(files, level, id);
      GrammarRule(id);
      var i :| 0 <= i < |ids| && ids[i] == id;
    }
  }

  lemma TooLongRule(files: Files, level: Level)
    ensures SomeTooLong(IdentifierValues(files, level)) <==> Fires(files, level, IDF003, Violation)
  {
    hide IdentifierValues, IdentifierOf, Utf8.EncodeString;
    var ids := IdentifierValues(files, level);
    if i :| 0 <= i < |ids| && |Utf8.EncodeString(ids[i])| > MAX_IDENTIFIER {
      IdentifierRule(files, level, ids[i]);
    }
    if x, id :| IdentifierOf(files, level, x, id) && |Utf8.EncodeString(id)| > 128 {
      IdentifierRule(files, level, id);
      var i :| 0 <= i < |ids| && ids[i] == id;
    }
  }

  /** The codes that fire at one severity only. */
  lemma OneSeverity(files: Files, level: Level, c: Code, s: Severity)
    requires Fires(files, level, c, s)
    ensures c in {BLK001, LIF001, LIF002} ==> s == Warning
    ensures c !in {BLK001, LIF001, LIF002, TS001, DIS002} ==> s == Violation
  {
  }

  lemma IdentifiersRule(files: Files, level: Level, c: Code, s: Severity)
    ensures Firing(c, s) in IdentifierFirings(files, level)
            <==> c in {IDF001, IDF002, IDF003} && Fires(files, level, c, s)
  {
    hide IdentifierValues, BadIdentifiers, SomeUngrammatical, SomeTooLong, Fires;
    BadIdentifiersRule(files, level);
    UngrammaticalRule(files, level);
    TooLongRule(files, level);
    if Fires(files, level, c, s) {
      OneSeverity(files, level, c, s);
    }
  }

  lemma DifferRule(files: Files, level: Level, field: string)
    ensures Disagree(files, Manifests(level), field) <==> Differ(files, level, field)
  {
    hide Manifests, Wanted, Decoded, Doc;
    forall k ensures Decoded(files, k) == Doc(files, k) {
      DocIs(files, k);
    }
    if k, l, s, t :| Gives(files, level, k, field, s) && Gives(files, level, l, field, t) && s != t {
      var i := WantedIndex(level, k);
      var j := WantedIndex(level, l);
      assert FieldText(files, Manifests(level)[i], field) == Some(s) && FieldText(files, Manifests(level)[j], field) == Some(t);
    }
    if Disagree(files, Manifests(level), field) {
      var i, j := Disagreeing(files, Manifests(level), field);
      IndexWanted(level, i);
      IndexWanted(level, j);
      assert Gives(files, level, Manifests(level)[i], field, FieldText(files, Manifests(level)[i], field).value);
      assert Gives(files, level, Manifests(level)[j], field, FieldText(files, Manifests(level)[j], field).value);
    }
  }

  lemma Disagreeing(files: Files, kinds: seq<Kind>, field: string) returns (i: nat, j: nat)
    requires Disagree(files, kinds, field)
    ensures i < |kinds| && j < |kinds| && FieldText(files, kinds[i], field).Some? && FieldText(files, kinds[j], field).Some?
    ensures FieldText(files, kinds[i], field) != FieldText(files, kinds[j], field)
  {
    hide FieldText;
    i, j :| 0 <= i < |kinds| && 0 <= j < |kinds| && FieldText(files, kinds[i], field).Some?
      && FieldText(files, kinds[j], field).Some? && FieldText(files, kinds[i], field) != FieldText(files, kinds[j], field);
  }

  lemma ConsistencyRule(files: Files, level: Level, c: Code, s: Severity)
    ensures Firing(c, s) in ConsistencyFirings(files, level) <==> c in {CON001, CON002} && Fires(files, level, c, s)
  {
    hide Disagree, Differ, Manifests;
    DifferRule(files, level, "manifest_version");
    DifferRule(files, level, "publisher");
  }

  lemma LinksRule(files: Files, level: Level)
    ensures Unlinked(files, Manifests(level))
            <==> "llms.txt" !in files || exists k :: Wanted(level, k) && File(k) !in LINKED_NAMES(files["llms.txt"])
  {
    hide Manifests, Wanted;
    if "llms.txt" in files {
      var links := LINKED_NAMES(files["llms.txt"]);
      if i :| 0 <= i < |Manifests(level)| && FileOf(Manifests(level)[i]) !in links {
        IndexWanted(level, i);
        assert File(Manifests(level)[i]) !in links;
      }
      if k :| Wanted(level, k) && File(k) !in links {
        var i := WantedIndex(level, k);
        assert FileOf(Manifests(level)[i]) !in links;
      }
    }
  }

  lemma ListingRule(v: Value, level: Level)
    ensures Listing(v, level) <==> v.Obj? && !Unlisted(v, Manifests(level))
  {
    hide Manifests, Wanted, MemberOf;
    forall k ensures NameOfKind(k) == ["identity", "capability", "knowledge", "trust", "agent"][Index(k)] {
    }
    if i :| 0 <= i < |Manifests(level)| && MemberOf(v, NameOfKind(Manifests(level)[i])).None? {
      IndexWanted(level, i);
    }
    if k :| Wanted(level, k) && MemberOf(v, NameOfKind(k)).None? {
      var i := WantedIndex(level, k);
    }
  }

  lemma WellKnownRule(files: Files, level: Level, c: Code, s: Severity)
    ensures Firing(c, s) in WellKnownFirings(files, Manifests(level)) <==> c in {DIS002, DIS003} && Fires(files, level, c, s)
  {
    hide Unlisted, Listing, Manifests, LacksDiscoveryField;
    if WellKnown(files).Some? {
      var fields := WellKnown(files).value;
      DiscoveryFields(fields);
      if "manifests" in fields {
        ListingRule(fields["manifests"], level);
      }
    }
  }

  lemma DiscoveryRule(files: Files, level: Level, c: Code, s: Severity)
    ensures Firing(c, s) in DiscoveryFirings(files, level) <==> c in {DIS001, DIS002, DIS003} && Fires(files, level, c, s)
  {
    hide Unlinked, Manifests, WellKnownFirings, Fires;
    assert Unlinked(files, Manifests(level)) <==> Fires(files, level, DIS001, Violation) by { FiresLinks(files, level); }
    WellKnownRule(files, level, c, s);
    if Fires(files, level, c, s) {
      OneSeverity(files, level, c, s);
    }
  }

  lemma FiresLinks(files: Files, level: Level)
    ensures Unlinked(files, Manifests(level)) <==> Fires(files, level, DIS001, Violation)
  {
    hide Unlinked, Manifests;
    LinksRule(files, level);
  }

  lemma DiscoveryFields(fields: Fields)
    ensures LacksDiscoveryField(fields)
            <==> exists name :: name in {"aci_version", "last_updated", "manifests"} && name !in fields
  {
    assert DISCOVERY_FIELDS[0] == "aci_version" && DISCOVERY_FIELDS[1] == "last_updated" && DISCOVERY_FIELDS[2] == "manifests";
    if name :| name in {"aci_version", "last_updated", "manifests"} && name !in fields {
      var i := if name == "aci_version" then 0 else if name == "last_updated" then 1 else 2;
      assert DISCOVERY_FIELDS[i] == name;
    }
  }

  lemma EmptyRule(files: Files, level: Level, k: Kind)
    requires Wanted(level, k) && !k.Identity?
    ensures Unpopulated(files, k) <==> EmptyBlocks(files, level, k)
  {
    hide Wanted, Blocks, Block, Decoded, Doc;
    DocIs(files, k);
    if Doc(files, k).Some? {
      var fields := Fields(files, k);
      if EmptyBlocks(files, level, k) {
        forall i | 0 <= i < |Blocks(k)| ensures var a := ArrayAt(fields, Blocks(k)[i]); a.None? || a.value == [] {
          KindTables(level, k, Blocks(k)[i]);
        }
      }
      if Unpopulated(files, k) {
        forall name | name in fields && Block(k, name) && fields[name].Arr? ensures fields[name].items == [] {
          KindTables(level, k, name);
          var i :| 0 <= i < |Blocks(k)| && Blocks(k)[i] == name;
        }
      }
    }
  }

  lemma BlocksRule(files: Files, level: Level, c: Code, s: Severity)
    ensures Firing(c, s) in BlockFirings(files, level) <==> c == BLK001 && Fires(files, level, c, s)
  {
    hide Unpopulated, EmptyBlocks, Wanted, Manifests;
    if i :| 1 <= i < |Manifests(level)| && Unpopulated(files, Manifests(level)[i]) {
      IndexWanted(level, i);
      assert !Manifests(level)[i].Identity? by { IdentityFirst(level, i); }
      EmptyRule(files, level, Manifests(level)[i]);
    }
    if k :| EmptyBlocks(files, level, k) {
      EmptyWanted(files, level, k);
      var i := WantedIndex(level, k);
      IdentityFirst(level, i);
      EmptyRule(files, level, k);
    }
  }

  lemma IdentityFirst(level: Level, i: nat)
    requires i < |Manifests(level)|
    ensures Manifests(level)[i].Identity? <==> i == 0
  {
  }

  lemma EmptyWanted(files: Files, level: Level, k: Kind)
    requires EmptyBlocks(files, level, k)
    ensures Wanted(level, k) && !k.Identity?
  {
    hide Wanted;
  }

  lemma StatusesRule(files: Files, level: Level)
    ensures var entities := Entities(files, Manifests(level));
            (exists i :: 0 <= i < |entities| && BadStatus(entities[i])) <==> Fires(files, level, LIF001, Warning)
  {
    hide Entities, Entity, Manifests, BadStatus, OddStatus;
    var entities := Entities(files, Manifests(level));
    if i :| 0 <= i < |entities| && BadStatus(entities[i]) {
      EntityRule(files, level, entities[i]);
      StatusRule(entities[i]);
    }
    if x :| Entity(files, level, x) && OddStatus(x) {
      EntityRule(files, level, x);
      StatusRule(x);
      var i :| 0 <= i < |entities| && entities[i] == x;
    }
  }

  lemma SuccessorsRule(files: Files, level: Level)
    ensures var entities := Entities(files, Manifests(level));
            (exists i :: 0 <= i < |entities| && Unreplaced(entities[i])) <==> Fires(files, level, LIF002, Warning)
  {
    hide Entities, Entity, Manifests, TextMember;
    var entities := Entities(files, Manifests(level));
    if i :| 0 <= i < |entities| && Unreplaced(entities[i]) {
      EntityRule(files, level, entities[i]);
      assert WithoutSuccessor(entities[i]);
    }
    if x :| Entity(files, level, x) && WithoutSuccessor(x) {
      EntityRule(files, level, x);
      var i :| 0 <= i < |entities| && entities[i] == x;
      assert Unreplaced(entities[i]);
    }
  }

  lemma LifecycleRule(files: Files, level: Level, c: Code, s: Severity)
    ensures Firing(c, s) in LifecycleFirings(files, level) <==> c in {LIF001, LIF002} && Fires(files, level, c, s)
  {
    hide Entities, Manifests, BadStatus, Unreplaced, Fires;
    StatusesRule(files, level);
    SuccessorsRule(files, level);
    if Fires(files, level, c, s) {
      OneSeverity(files, level, c, s);
    }
  }

  lemma StatusRule(x: Value)
    ensures BadStatus(x) <==> OddStatus(x)
  {
    hide TextMember;
  }

  lemma RunsIs(x: Value)
    ensures Operational(x) <==> Runs(x)
  {
    hide MemberOf;
  }

  lemma AgentsRule(files: Files, level: Level, c: Code, s: Severity)
    requires level == 3
    ensures Firing(c, s) in AgentFirings(files) <==> c in {AGT001, LVL002} && Fires(files, level, c, s)
  {
    hide Operational, Runs, TextMember;
    DocIs(files, Agent);
    var items := Agents(files);
    forall i | 0 <= i < |items| ensures Operational(items[i]) <==> Runs(items[i]) {
      RunsIs(items[i]);
    }
    forall i | 0 <= i < |items| ensures BadAgent(items, i) <==> BadAgentAt(items, i) {
    }
  }

  /** aciRun at a level fires exactly these codes at these severities. */
  lemma FiringsExactly(files: Files, level: Level, c: Code, s: Severity)
    ensures Firing(c, s) in Firings(files, level) <==> Fires(files, level, c, s)
  {
    hide Fires, SerialFirings, PresenceFirings, AllManifestFirings, IdentifierFirings, ConsistencyFirings, DiscoveryFirings,
      BlockFirings, LifecycleFirings, AgentFirings, Manifests;
    SerialRule(files, level, c, s);
    PresenceRule(files, level, c, s);
    ManifestsRule(files, level, c, s);
    IdentifiersRule(files, level, c, s);
    ConsistencyRule(files, level, c, s);
    DiscoveryRule(files, level, c, s);
    BlocksRule(files, level, c, s);
    LifecycleRule(files, level, c, s);
    if level == 3 {
      AgentsRule(files, level, c, s);
    } else {
      NoAgents(files, level, c, s);
    }
  }

  lemma NoAgents(files: Files, level: Level, c: Code, s: Severity)
    requires level < 3
    ensures c in {AGT001, LVL002} ==> !Fires(files, level, c, s)
  {
  }
}
