/** GATE 1 in plain terms, on the record set and the statement as a whole, and the gate
    put together. */
module StatementRules {
  import opened Core
  import opened Order
  import opened Sorting
  import opened Json
  import opened Codec
  import opened Codes
  import opened Statements
  import opened CorpusManifest
  import opened Gate0
  import opened Payloads
  import opened Rows
  import opened RecordSet
  import opened Commitments
  import opened Seals
  import opened Gate1
  import opened GateRules
  import opened CoverageRules
  import Commit
  import Recompute
  import Accepted
  import Evaluate
  import Binding
  import Merkle
  import Utf8

  // ----- the record set -----

  /** The DSSE encoding of a decoded record. */
  function Envelope(r: Record): bytes {
    if r.payload.Some? then Merkle.Pae(r.payloadType, r.payload.value) else []
  }

  function Envelopes(rs: seq<Record>): (es: seq<bytes>)
    ensures |es| == |rs| && forall i :: 0 <= i < |rs| ==> es[i] == Envelope(rs[i])
  {
    seq(|rs|, i requires 0 <= i < |rs| => Envelope(rs[i]))
  }

  predicate SameLeaf(rs: seq<Record>) {
    exists i, j :: 0 <= i < j < |rs| && rs[i].payload.Some? && rs[j].payload.Some?
                   && Sha256([0] + Envelope(rs[i])) == Sha256([0] + Envelope(rs[j]))
  }

  function RecordSetFaults(p: Predicate): set<Code> {
    if !p.recordsPresent || p.records == [] then With({}, p.batchRootPresent, BatchRootOrphaned)
    else
      var broken := exists i :: 0 <= i < |p.records| && p.records[i].payload.None?;
      With(With(With(With(With({},
        exists i :: 0 <= i < |p.records| && p.records[i].signatures == [], RecordSignaturesEmpty),
        broken, RecordUndecodable),
        SameLeaf(p.records), DuplicateRecord),
        !broken && !p.batchRootPresent, BatchRootMissing),
        !broken && p.batchRootPresent && p.batchRoot != Hex(Merkle.PyNode(Envelopes(p.records), 0, |p.records|)),
        BatchRootMismatch)
  }

  lemma RecordSetRules(p: Predicate)
    ensures RecordSetCodes(p) == RecordSetFaults(p)
  {
    hide RootHex, Merkle.Root, Merkle.PyNode, Merkle.Pae, SomeDuplicate, SameLeaf, Leaf;
    if !NoRecords(p) {
      RootRule(p.records);
      SameLeafRule(p.records);
    }
  }

  lemma EnvelopesAre(rs: seq<Record>)
    ensures Paes(rs) == Envelopes(rs)
  {
    hide Merkle.Pae;
  }

  lemma Whole<T>(s: seq<T>)
    ensures s[0..|s|] == s
  {
  }

  lemma RootRule(rs: seq<Record>)
    requires rs != []
    ensures RootHex(rs) == Hex(Merkle.PyNode(Envelopes(rs), 0, |rs|))
  {
    hide Merkle.Root, Merkle.PyNode, Merkle.Leaves, Hex, Paes, Envelopes, Envelope;
    EnvelopesAre(rs);
    Merkle.RailsRootAlike(Paes(rs), 0, |rs|);
    Whole(Merkle.Leaves(Paes(rs)));
  }

  lemma LeafIs(r: Record)
    ensures Leaf(r) == Sha256([0] + Envelope(r))
  {
  }

  lemma SameLeafRule(rs: seq<Record>)
    ensures SomeDuplicate(rs) <==> SameLeaf(rs)
  {
    hide Leaf, Sha256, Envelope;
    forall i | 0 <= i < |rs| ensures Leaf(rs[i]) == Sha256([0] + Envelope(rs[i])) {
      LeafIs(rs[i]);
    }
  }

  // ----- rules over every row -----

  /** Record i shows the kind. */
  predicate Kind(p: Predicate, i: int, kind: string) {
    0 <= i < |p.records| && Says(Content(p.records[i]), "aeeKind", kind)
  }

  lemma KindIsShown(p: Predicate, i: int, kind: string)
    requires 0 <= i < |p.records| && kind != ""
    ensures RecordKind(p, i) == kind <==> Kind(p, i, kind)
  {
    hide Says, Content, TextMember, RecordPayload;
    ContentPlain(p.records[i]);
    SaysKind(p.records[i], kind);
  }

  predicate PointsAt(row: Row, i: int) {
    row.refsPresent && !row.refsErr && i in row.refs
  }

  predicate CaughtRow(p: Predicate, row: Row)
    requires Readable(p)
  {
    row.containmentObserved in p.env.value.vocabulary.value.caught
  }

  predicate CleanRow(p: Predicate, row: Row)
    requires Readable(p)
  {
    row.containmentObserved in p.env.value.vocabulary.value.labels && !CaughtRow(p, row)
  }

  predicate PointsAtInterception(p: Predicate, row: Row) {
    exists i :: 0 <= i < |p.records| && Kind(p, i, "interception") && PointsAt(row, i)
  }

  predicate Contradiction(p: Predicate)
    requires Readable(p)
  {
    exists r :: 0 <= r < |p.rows| && CleanRow(p, p.rows[r]) && PointsAtInterception(p, p.rows[r])
  }

  predicate Orphan(p: Predicate)
    requires Readable(p)
  {
    exists i :: 0 <= i < |p.records| && Kind(p, i, "interception") && Unclaimed(p, i)
  }

  /** No caught row points at the record. */
  predicate Unclaimed(p: Predicate, i: int)
    requires Readable(p)
  {
    forall r :: 0 <= r < |p.rows| && CaughtRow(p, p.rows[r]) ==> !PointsAt(p.rows[r], i)
  }

  /** The commitment values the manifest declares for an attack. */
  function Expects(p: Predicate, attack: string): seq<string> {
    if p.env.Some? && p.env.value.corpus.Some? && p.env.value.corpus.value.payloads.Payloads?
       && attack in p.env.value.corpus.value.payloads.entries
    then p.env.value.corpus.value.payloads.entries[attack] else []
  }

  /** An interception the row points at whose commitments hold no expected value. */
  ghost predicate Mismatched(p: Predicate, row: Row) {
    exists i :: i in row.refs && MismatchedAt(p, i, Expects(p, row.attackId))
  }

  ghost predicate MismatchedAt(p: Predicate, i: int, expected: seq<string>) {
    Kind(p, i, "interception")
    && exists ss :: Lists(Content(p.records[i]), "aeePayloadCommitment", ss) && forall k :: 0 <= k < |ss| ==> ss[k] !in expected
  }

  ghost function PinFault(p: Predicate, row: Row): Option<Code> {
    if row.attribution != Some("pinned") then None
    else if !PointsAtInterception(p, row) then Some(AttributionPinnedRecordless)
    else if Expects(p, row.attackId) == [] then Some(AttributionUnpinnable)
    else if Mismatched(p, row) then Some(AttributionPinUnmatched)
    else None
  }

  /** The fault of the first row that has one. */
  ghost function FirstPinFault(p: Predicate, rows: seq<Row>): set<Code> {
    if rows == [] then {}
    else if PinFault(p, rows[0]).Some? then {PinFault(p, rows[0]).value}
    else FirstPinFault(p, rows[1..])
  }

  ghost function EveryRowFaults(p: Predicate): set<Code>
    requires Readable(p)
  {
    var some := p.recordsPresent && p.records != [];
    With(With({},
      some && Contradiction(p), CleanRowContradicted),
      some && Orphan(p), InterceptionRecordOrphaned)
    + FirstPinFault(p, p.rows)
  }

  lemma PointsRule(p: Predicate, row: Row)
    ensures ResolvesKind(p, row, KIND_INTERCEPTION) <==> PointsAtInterception(p, row)
  {
    hide RecordKind, Kind;
    KindsApart();
    forall i | 0 <= i < |p.records| ensures RecordKind(p, i) == KIND_INTERCEPTION <==> Kind(p, i, "interception") {
      KindIsShown(p, i, KIND_INTERCEPTION);
    }
    if ResolvesKind(p, row, KIND_INTERCEPTION) {
      var k :| 0 <= k < |row.refs| && InRecords(p, row.refs[k]) && RecordKind(p, row.refs[k]) == KIND_INTERCEPTION;
      assert Kind(p, row.refs[k], "interception") && PointsAt(row, row.refs[k]);
    }
    if i :| 0 <= i < |p.records| && Kind(p, i, "interception") && PointsAt(row, i) {
      var k :| 0 <= k < |row.refs| && row.refs[k] == i;
    }
  }

  lemma ContradictionRule(p: Predicate)
    requires Readable(p)
    ensures CleanContradicted(p) <==> Contradiction(p)
  {
    hide ResolvesKind, PointsAtInterception;
    forall r | 0 <= r < |p.rows|
      ensures ContradictedRow(p, p.rows[r]) <==> CleanRow(p, p.rows[r]) && PointsAtInterception(p, p.rows[r])
    {
      PointsRule(p, p.rows[r]);
    }
  }

  lemma OrphanRule(p: Predicate)
    requires Readable(p)
    ensures Orphaned(p) <==> Orphan(p)
  {
    hide RecordKind, Kind;
    KindsApart();
    forall i | 0 <= i < |p.records|
      ensures OrphanedAt(p, i) <==> Kind(p, i, "interception") && Unclaimed(p, i)
    {
      KindIsShown(p, i, KIND_INTERCEPTION);
    }
  }

  lemma UnmatchedRule(p: Predicate, i: int, expected: seq<string>)
    requires InRecords(p, i)
    ensures UnmatchedPin(p, i, expected) <==> MismatchedAt(p, i, expected)
  {
    hide RecordKind, Kind, Content, ObjStrings, Lists, Plain, RecordPayload;
    KindsApart();
    KindIsShown(p, i, KIND_INTERCEPTION);
    ContentPlain(p.records[i]);
    var v := Content(p.records[i]);
    var values := ObjStrings(v, PAYLOAD_COMMITMENT);
    if values.Some? {
      ListRule(v, PAYLOAD_COMMITMENT, values.value);
    }
    if ss :| Lists(v, "aeePayloadCommitment", ss) {
      ListRule(v, PAYLOAD_COMMITMENT, ss);
    }
    forall ss | Lists(v, "aeePayloadCommitment", ss) ensures values == Some(ss) {
      ListRule(v, PAYLOAD_COMMITMENT, ss);
    }
  }

  lemma MismatchRule(p: Predicate, row: Row)
    ensures PinUnmatched(p, row, ExpectedFor(p, row.attackId)) <==> Mismatched(p, row)
  {
    hide UnmatchedPin, MismatchedAt;
    var expected := ExpectedFor(p, row.attackId);
    assert expected == Expects(p, row.attackId);
    forall i | InRecords(p, i) ensures UnmatchedPin(p, i, expected) <==> MismatchedAt(p, i, expected) {
      UnmatchedRule(p, i, expected);
    }
    if PinUnmatched(p, row, expected) {
      var k :| 0 <= k < |row.refs| && InRecords(p, row.refs[k]) && UnmatchedPin(p, row.refs[k], expected);
      assert row.refs[k] in row.refs;
    }
    if i :| i in row.refs && MismatchedAt(p, i, expected) {
      var k :| 0 <= k < |row.refs| && row.refs[k] == i;
      MismatchedInRange(p, i, expected);
    }
  }

  lemma MismatchedInRange(p: Predicate, i: int, expected: seq<string>)
    requires MismatchedAt(p, i, expected)
    ensures InRecords(p, i)
  {
  }

  lemma PinRule(p: Predicate, row: Row)
    ensures AttributionFault(p, row) == PinFault(p, row)
  {
    hide ResolvesKind, PointsAtInterception, PinUnmatched, Mismatched;
    PointsRule(p, row);
    MismatchRule(p, row);
    assert ExpectedFor(p, row.attackId) == Expects(p, row.attackId);
  }

  lemma {:induction false} FirstPinRule(p: Predicate, rows: seq<Row>)
    ensures AttributionCodes(p, rows) == FirstPinFault(p, rows)
  {
    hide AttributionFault, PinFault;
    if rows != [] {
      PinRule(p, rows[0]);
      FirstPinRule(p, rows[1..]);
    }
  }

  lemma EveryRowRules(p: Predicate)
    requires Readable(p)
    ensures AnyBasisCodes(p) == EveryRowFaults(p)
  {
    hide CleanContradicted, Contradiction, Orphaned, Orphan, AttributionCodes, FirstPinFault;
    ContradictionRule(p);
    OrphanRule(p);
    FirstPinRule(p, p.rows);
  }

  // ----- what the records of this run commit to -----

  /** A leaf of an interception or an examination. */
  predicate ObservedLeaf(p: Predicate, leaf: string) {
    exists i :: 0 <= i < |p.records| && (Kind(p, i, "interception") || Kind(p, i, "examination"))
                && HexOfLeaf(p.records[i]) == leaf
  }

  function HexOfLeaf(r: Record): string {
    Hex(Sha256([0] + Envelope(r)))
  }

  /** The digest of the canonical array of these leaves, ascending and once each. */
  ghost predicate CommitsTo(p: Predicate, d: string) {
    exists ls :: Ascends(ls) && (forall leaf :: leaf in ls <==> ObservedLeaf(p, leaf))
                 && d == SHA256Hex(Canon(Arr(Map(ls, StrOf))))
  }

  lemma LeafRule(p: Predicate, leaf: string)
    ensures IsObserved(p, leaf) <==> ObservedLeaf(p, leaf)
  {
    hide RecordKind, Kind, LeafHex, HexOfLeaf;
    KindsApart();
    forall i | 0 <= i < |p.records|
      ensures ObservedKind(RecordKind(p, i)) <==> Kind(p, i, "interception") || Kind(p, i, "examination")
      ensures LeafHex(p.records[i]) == HexOfLeaf(p.records[i])
    {
      KindIsShown(p, i, KIND_INTERCEPTION);
      KindIsShown(p, i, KIND_EXAMINATION);
      LeafHexIs(p.records[i]);
    }
  }

  lemma LeafHexIs(r: Record)
    ensures LeafHex(r) == HexOfLeaf(r)
  {
    LeafIs(r);
  }

  lemma CommitsRule(p: Predicate, d: string)
    ensures ObservedSetDigest(p) == d <==> CommitsTo(p, d)
  {
    hide IsObserved, ObservedLeaf, SHA256Hex, Canon, Observed, Sort, StringArrayText, Utf16Less;
    var sorted := Sort(Observed(p, |p.records|), Self);
    Commit.ObservedSorted(p);
    StringArrayIsCanonical(sorted);
    AscendsRule(sorted);
    forall leaf ensures leaf in sorted <==> ObservedLeaf(p, leaf) {
      LeafRule(p, leaf);
    }
    assert CommitsTo(p, ObservedSetDigest(p));
    if ls :| Ascends(ls) && (forall leaf :: leaf in ls <==> ObservedLeaf(p, leaf)) && d == SHA256Hex(Canon(Arr(Map(ls, StrOf)))) {
      AscendsRule(ls);
      AscendingUnique(ls, sorted);
    }
  }

  /** A record of the kind that names this run. */
  predicate OfRun(p: Predicate, i: int, kind: string, binding: string) {
    Kind(p, i, kind) && Says(Content(p.records[i]), "aeeRunBinding", binding)
  }

  lemma OfRunRule(p: Predicate, i: int, kind: string, binding: string)
    requires InRecords(p, i) && kind != ""
    ensures Claims(p, i, kind, binding) <==> OfRun(p, i, kind, binding)
  {
    hide RecordKind, Kind, Content, Says, ObjString, Plain, RecordPayload;
    KindIsShown(p, i, kind);
    ContentPlain(p.records[i]);
    StringRule(Content(p.records[i]), RUN_BINDING);
  }

  ghost predicate WrongCommitment(p: Predicate, i: int, binding: string) {
    OfRun(p, i, "sealed", binding)
    && exists d :: Says(Content(p.records[i]), "aeeObservedSet", d) && Hex64(d) && !CommitsTo(p, d)
  }

  ghost predicate SealOfThisRun(p: Predicate, i: int, binding: string) {
    Kind(p, i, "sealed") && ContentFaults(p.records[i], binding) == {}
    && SealedRule(Content(p.records[i]), PinnedDigest(p), true, DeclaredAttacks(p))
  }

  /** A record of a covering kind that binds to this run and breaks its constraints. */
  ghost predicate Broken(p: Predicate, i: int, kind: string, binding: string, issuedAt: int) {
    Kind(p, i, kind) && ContentFaults(p.records[i], binding) == {}
    && !KindRule(Content(p.records[i]), PinnedDigest(p), true, issuedAt, DeclaredAttacks(p))
  }

  ghost function BrokenFaults(p: Predicate, n: nat, binding: string, issuedAt: int): set<Code>
    requires n <= |p.records|
  {
    if n == 0 then {}
    else
      var v := Content(p.records[n - 1]);
      With(With(With(With(BrokenFaults(p, n - 1, binding, issuedAt),
        Broken(p, n - 1, "interception", binding, issuedAt), FailOf(v, "interception")),
        Broken(p, n - 1, "arming", binding, issuedAt), ArmingCoversNothing),
        Broken(p, n - 1, "sealed", binding, issuedAt), SealedCoversNothing),
        Broken(p, n - 1, "examination", binding, issuedAt), ExaminationCoversNothing)
  }

  /** A seal of this run whose well-formed array names an attack that no row caught. */
  ghost predicate NamesWrongly(p: Predicate, i: int, binding: string)
    requires Readable(p)
  {
    OfRun(p, i, "sealed", binding)
    && exists ss :: Lists(Content(p.records[i]), "aeeObservedAttacks", ss) && Ascends(ss) && Among(ss, DeclaredAttacks(p))
                    && exists k :: 0 <= k < |ss| && !CaughtAttack(p, ss[k])
  }

  predicate CaughtAttack(p: Predicate, id: string)
    requires Readable(p)
  {
    exists r :: 0 <= r < |p.rows| && p.rows[r].attackId == id && CaughtRow(p, p.rows[r])
  }

  /** An arming record of this run whose well-formed array leaves out an attack of an
      assessed class. */
  ghost predicate Understates(p: Predicate, i: int, binding: string) {
    p.coverage.Some? && p.env.Some? && p.env.value.corpus.Some? && OfRun(p, i, "arming", binding)
    && exists ss :: Lists(Content(p.records[i]), "aeeAssessedAttacks", ss) && Ascends(ss) && Among(ss, DeclaredAttacks(p))
                    && LeavesOutOf(p.coverage.value, Declares(p.env.value.corpus.value), ss)
  }

  ghost predicate LeavesOutOf(cov: Coverage, classes: Classes, ss: seq<string>) {
    exists id: string :: Assessed(cov, classes, id) && id !in ss
  }

  ghost function RunFaults(p: Predicate, binding: string, issuedAt: int): set<Code>
    requires Readable(p)
  {
    if !p.recordsPresent || p.records == [] then {}
    else
      With(With({},
        exists i :: 0 <= i < |p.records| && WrongCommitment(p, i, binding), ObservedSetMismatch),
        !exists i :: 0 <= i < |p.records| && SealOfThisRun(p, i, binding), SealedRecordAbsent)
      + BrokenFaults(p, |p.records|, binding, issuedAt)
      + With(With({},
          exists i :: 0 <= i < |p.records| && NamesWrongly(p, i, binding), ObservedAttackUncaught),
          exists i :: 0 <= i < |p.records| && Understates(p, i, binding), AssessedSetExceedsDeclaration)
  }

  lemma CommitmentRule(p: Predicate, i: int, binding: string)
    requires InRecords(p, i)
    ensures WrongSet(p, i, binding) <==> WrongCommitment(p, i, binding)
  {
    hide Claims, OfRun, Content, Says, ObjString, Plain, RecordPayload, ObservedSetDigest, CommitsTo, Hex64, IsLowerHex64;
    KindsApart();
    OfRunRule(p, i, KIND_SEALED, binding);
    ContentPlain(p.records[i]);
    var v := Content(p.records[i]);
    StringRule(v, OBSERVED_SET);
    var got := ObjString(v, OBSERVED_SET);
    if got.Some? {
      assert Says(v, OBSERVED_SET, got.value);
      HexRule(got.value);
      CommitsRule(p, got.value);
    }
    if d :| Says(v, "aeeObservedSet", d) && Hex64(d) && !CommitsTo(p, d) {
      HexRule(d);
      CommitsRule(p, d);
    }
  }

  lemma BoundRule(p: Predicate, i: int, binding: string)
    requires InRecords(p, i)
    ensures Bound(p.records[i], binding) <==> ContentFaults(p.records[i], binding) == {}
  {
    hide PayloadCodes, ContentFaults;
    PayloadRule(p.records[i], binding);
  }

  lemma CoversAlone(p: Predicate, i: int, issuedAt: int)
    requires InRecords(p, i)
    ensures Covers(p, i, [], issuedAt) <==>
            KindRule(Content(p.records[i]), PinnedDigest(p), true, issuedAt, DeclaredAttacks(p))
  {
    hide Covers, KindRule, Content;
    CoversRule(p, i, [], true, issuedAt);
  }

  lemma SealRule(p: Predicate, i: int, ctx: Context)
    requires InRecords(p, i)
    ensures GoodSeal(p, i, ctx) <==> SealOfThisRun(p, i, ctx.binding)
  {
    hide Content, ContentFaults, Bound, Covers, RecordKind, SealedRule, InterceptionRule, ArmingRule, Says;
    KindsApart();
    KindIsShown(p, i, KIND_SEALED);
    KindIsShown(p, i, KIND_INTERCEPTION);
    KindIsShown(p, i, KIND_ARMING);
    KindIsShown(p, i, KIND_EXAMINATION);
    BoundRule(p, i, ctx.binding);
    CoversAlone(p, i, ctx.issuedAt);
  }

  lemma {:induction false} BrokenRule(p: Predicate, n: nat, ctx: Context)
    requires n <= |p.records|
    ensures CarriedCodes(p, n, ctx) == BrokenFaults(p, n, ctx.binding, ctx.issuedAt)
  {
    hide Content, FailOf, FailCode, Broken, Defective, RecordKind, RecordPayload;
    if n > 0 {
      BrokenRule(p, n - 1, ctx);
      DefectRule(p, n - 1, ctx);
    }
  }

  /** A defective record is broken in the one kind it shows. */
  lemma DefectRule(p: Predicate, i: int, ctx: Context)
    requires InRecords(p, i)
    ensures var v, b, t := Content(p.records[i]), ctx.binding, ctx.issuedAt;
            var code := FailCode(RecordPayload(p, i), RecordKind(p, i));
            && (Defective(p, i, ctx) <==> Broken(p, i, "interception", b, t) || Broken(p, i, "arming", b, t)
                                          || Broken(p, i, "sealed", b, t) || Broken(p, i, "examination", b, t))
            && (Broken(p, i, "interception", b, t) ==>
                  code == FailOf(v, "interception") && !Broken(p, i, "arming", b, t) && !Broken(p, i, "sealed", b, t)
                  && !Broken(p, i, "examination", b, t))
            && (Broken(p, i, "arming", b, t) ==>
                  code == ArmingCoversNothing && !Broken(p, i, "sealed", b, t) && !Broken(p, i, "examination", b, t))
            && (Broken(p, i, "sealed", b, t) ==> code == SealedCoversNothing && !Broken(p, i, "examination", b, t))
            && (Broken(p, i, "examination", b, t) ==> code == ExaminationCoversNothing)
  {
    hide Content, ContentFaults, Bound, Covers, RecordKind, KindRule, Kind, RecordPayload, ListsDigests, Has, ObjStrings, MemberOf, CommitmentOk;
    KindsApart();
    KindIsShown(p, i, KIND_SEALED);
    KindIsShown(p, i, KIND_INTERCEPTION);
    KindIsShown(p, i, KIND_ARMING);
    KindIsShown(p, i, KIND_EXAMINATION);
    BoundRule(p, i, ctx.binding);
    CoversAlone(p, i, ctx.issuedAt);
    ContentPlain(p.records[i]);
    FailRule(p.records[i], RecordKind(p, i));
  }

  lemma NamesRuleOfSeal(p: Predicate, i: int, binding: string)
    requires Readable(p) && InRecords(p, i)
    ensures NamesUncaught(p, i, binding) <==> NamesWrongly(p, i, binding)
  {
    hide Claims, OfRun, Content, Lists, ObjStrings, Plain, RecordPayload, DeclaredIds, DeclaredAttacks, HasCaughtRow, CaughtAttack,
      StrictlyAscending, Ascends;
    KindsApart();
    OfRunRule(p, i, KIND_SEALED, binding);
    ContentPlain(p.records[i]);
    PinsAndIds(p);
    var v := Content(p.records[i]);
    var ids := ObjStrings(v, OBSERVED_ATTACKS);
    forall ss ensures ids == Some(ss) <==> Lists(v, OBSERVED_ATTACKS, ss) {
      ListRule(v, OBSERVED_ATTACKS, ss);
    }
    forall ss ensures StrictlyAscending(ss) <==> Ascends(ss) {
      AscendsRule(ss);
    }
    forall id ensures HasCaughtRow(p, id) <==> CaughtAttack(p, id) {
      CaughtRule(p, id);
    }
    if ids.Some? {
      assert Lists(v, OBSERVED_ATTACKS, ids.value);
    }
  }

  lemma CaughtRule(p: Predicate, id: string)
    requires Readable(p)
    ensures HasCaughtRow(p, id) <==> CaughtAttack(p, id)
  {
  }

  lemma UnderstatesRule(p: Predicate, i: int, binding: string)
    requires InRecords(p, i) && CoverageReadable(p)
    ensures Exceeds(p, i, binding) <==> Understates(p, i, binding)
  {
    hide Claims, OfRun, Content, Lists, ObjStrings, Plain, RecordPayload, DeclaredIds, DeclaredAttacks, LeavesOut, LeavesOutOf,
      StrictlyAscending, Ascends;
    KindsApart();
    OfRunRule(p, i, KIND_ARMING, binding);
    ContentPlain(p.records[i]);
    PinsAndIds(p);
    var v := Content(p.records[i]);
    var ids := ObjStrings(v, ASSESSED_ATTACKS);
    forall ss ensures ids == Some(ss) <==> Lists(v, ASSESSED_ATTACKS, ss) {
      ListRule(v, ASSESSED_ATTACKS, ss);
    }
    forall ss ensures StrictlyAscending(ss) <==> Ascends(ss) {
      AscendsRule(ss);
    }
    forall ss ensures LeavesOut(p, ss) <==> LeavesOutOf(p.coverage.value, Declares(p.env.value.corpus.value), ss) {
      LeavesRule(p, ss);
    }
    if ids.Some? {
      assert Lists(v, ASSESSED_ATTACKS, ids.value);
    }
  }

  lemma LeavesRule(p: Predicate, ss: seq<string>)
    requires CoverageReadable(p)
    ensures LeavesOut(p, ss) <==> LeavesOutOf(p.coverage.value, Declares(p.env.value.corpus.value), ss)
  {
    forall id: string
      ensures Expected(p.coverage.value, ClassesOf(p.env.value.corpus.value), id)
              <==> Assessed(p.coverage.value, Declares(p.env.value.corpus.value), id) {}
  }

  lemma RunRules(p: Predicate, ctx: Context)
    requires Readable(p)
    ensures SubstrateCodes(p, ctx) == RunFaults(p, ctx.binding, ctx.issuedAt)
  {
    hide WrongSet, WrongCommitment, GoodSeal, SealOfThisRun, CarriedCodes, BrokenFaults, NamesUncaught, NamesWrongly, Exceeds, Understates;
    forall i | 0 <= i < |p.records|
      ensures WrongSet(p, i, ctx.binding) <==> WrongCommitment(p, i, ctx.binding)
      ensures GoodSeal(p, i, ctx) <==> SealOfThisRun(p, i, ctx.binding)
      ensures NamesUncaught(p, i, ctx.binding) <==> NamesWrongly(p, i, ctx.binding)
    {
      CommitmentRule(p, i, ctx.binding);
      SealRule(p, i, ctx);
      NamesRuleOfSeal(p, i, ctx.binding);
    }
    forall i | 0 <= i < |p.records|
      ensures CoverageReadable(p) ==> (Exceeds(p, i, ctx.binding) <==> Understates(p, i, ctx.binding))
      ensures Understates(p, i, ctx.binding) ==> CoverageReadable(p)
    {
      if CoverageReadable(p) {
        UnderstatesRule(p, i, ctx.binding);
      }
      UnderstatesReads(p, i, ctx.binding);
    }
    BrokenRule(p, |p.records|, ctx);
  }

  lemma UnderstatesReads(p: Predicate, i: int, binding: string)
    ensures Understates(p, i, binding) ==> CoverageReadable(p)
  {
  }

  // ----- the binding of the run -----

  /** The first byte that is no space, tab, line feed or carriage return is a brace. */
  predicate OpensObject(raw: bytes) {
    exists k :: 0 <= k < |raw| && raw[k] == 0x7B && forall j :: 0 <= j < k ==> raw[j] in {0x20, 0x09, 0x0A, 0x0D}
  }

  function PostureDigest(e: Environment): string {
    if e.postureRaw.Some? && OpensObject(e.postureRaw.value) && Canonicalize(e.postureRaw.value).Ok?
    then SHA256Hex(Canonicalize(e.postureRaw.value).value) else ""
  }

  /** The digest of {"aeeBindingVersion":"2","catchPolicy":...,"substrate":...}. */
  function RunBinding(s: Statement): string {
    var env := s.predicate_.env;
    SHA256Hex(Utf8.EncodeString(Binding.Template(
      if env.None? then Binding.Inputs("", "", "", "", "", "", "")
      else
        var e := env.value;
        Binding.Inputs(
          DigestOf(e.catchPolicy),
          if e.corpus.Some? then DigestOf(Some(e.corpus.value.digest)) else "",
          PostureDigest(e),
          if e.vocabulary.Some? then DigestOf(Some(e.vocabulary.value.digest)) else "",
          DigestOf(e.runEntropy),
          if s.subject != [] then DigestOf(Some(s.subject[0])) else "",
          DigestOf(e.substrate)))))
  }

  lemma {:induction false} OpensRule(raw: bytes)
    ensures IsJsonObject(raw) <==> OpensObject(raw)
  {
    if raw != [] && IsSpace(raw[0]) {
      OpensRule(raw[1..]);
      if OpensObject(raw[1..]) {
        var k :| 0 <= k < |raw[1..]| && raw[1..][k] == 0x7B && forall j :: 0 <= j < k ==> raw[1..][j] in {0x20, 0x09, 0x0A, 0x0D};
        assert raw[k + 1] == 0x7B;
        forall j | 0 <= j < k + 1 ensures raw[j] in {0x20, 0x09, 0x0A, 0x0D} {
          assert j > 0 ==> raw[j] == raw[1..][j - 1];
        }
      }
      if k :| 0 <= k < |raw| && raw[k] == 0x7B && forall j :: 0 <= j < k ==> raw[j] in {0x20, 0x09, 0x0A, 0x0D} {
        assert raw[1..][k - 1] == 0x7B;
        forall j | 0 <= j < k - 1 ensures raw[1..][j] in {0x20, 0x09, 0x0A, 0x0D} {
          assert raw[1..][j] == raw[j + 1];
        }
      }
    } else if raw != [] {
      assert SkipSpace(raw) == raw;
    }
  }

  lemma BindingIs(s: Statement)
    ensures StatementBinding(s) == RunBinding(s)
  {
    hide Binding.Preimage, Binding.Template, Utf8.EncodeString, SHA256Hex, Canonicalize, IsJsonObject, OpensObject;
    Binding.PreimageText(BindingInputs(s));
    var env := s.predicate_.env;
    if env.Some? && env.value.postureRaw.Some? {
      OpensRule(env.value.postureRaw.value);
    }
  }

  // ----- the gate -----

  /** A well-formed reference of a row of any basis that names no record. */
  ghost predicate RefAstray(p: Predicate) {
    exists r, i :: 0 <= r < |p.rows| && PointsAt(p.rows[r], i) && !(0 <= i < |p.records|)
  }

  ghost function RowsFaults(p: Predicate, n: nat, binding: string, issuedAt: int): set<Code>
    requires GateReady(p) && n <= |p.rows|
  {
    if n == 0 then {}
    else
      RowsFaults(p, n - 1, binding, issuedAt)
      + if p.rows[n - 1].basis == Some("substrate") then RowFaults(p, p.rows[n - 1], binding, issuedAt) else {}
  }

  /** What GATE 1 raises, with both of its early returns. */
  ghost function Gate1Faults(s: Statement): set<Code>
    requires GateReady(s.predicate_)
  {
    var p := s.predicate_;
    var opening := With(RecordSetFaults(p), p.records != [] && RefAstray(p), RefOutOfRange);
    if !exists i :: 0 <= i < |p.rows| && p.rows[i].basis == Some("substrate") then opening + EveryRowFaults(p)
    else if !p.recordsPresent then opening + {RecordsAbsent}
    else if PARSE_TIMESTAMP(p.issuedAt).None? then opening + {IssuedAtMalformed}
    else
      var t := PARSE_TIMESTAMP(p.issuedAt).value;
      opening + RowsFaults(p, |p.rows|, RunBinding(s), t) + EveryRowFaults(p) + RunFaults(p, RunBinding(s), t)
  }

  lemma AstrayRule(p: Predicate)
    ensures SomeDangling(p) <==> RefAstray(p)
  {
    if SomeDangling(p) {
      var r :| 0 <= r < |p.rows| && Dangling(p, p.rows[r]);
      var k :| 0 <= k < |p.rows[r].refs| && !InRecords(p, p.rows[r].refs[k]);
      assert PointsAt(p.rows[r], p.rows[r].refs[k]);
    }
    if r, i :| 0 <= r < |p.rows| && PointsAt(p.rows[r], i) && !(0 <= i < |p.records|) {
      var k :| 0 <= k < |p.rows[r].refs| && p.rows[r].refs[k] == i;
      assert Dangling(p, p.rows[r]);
    }
  }

  lemma {:induction false} RowsRules(p: Predicate, n: nat, ctx: Context)
    requires GateReady(p) && n <= |p.rows|
    ensures SubstrateRowCodes(p, n, ctx) == RowsFaults(p, n, ctx.binding, ctx.issuedAt)
  {
    hide RowCodes, RowFaults, Readable, RefsWellParsed;
    if n > 0 {
      RowsRules(p, n - 1, ctx);
      RowRules(p, p.rows[n - 1], ctx);
    }
  }

  /** GATE 1 raises exactly these codes. */
  lemma Gate1Rules(s: Statement)
    requires GateReady(s.predicate_)
    ensures Gate1Codes(s) == Gate1Faults(s)
  {
    hide RecordSetCodes, RecordSetFaults, SomeDangling, RefAstray, AnyBasisCodes, EveryRowFaults, SubstrateRowCodes, RowsFaults,
      SubstrateCodes, RunFaults, HasSubstrateRows, StatementBinding, RunBinding, Readable, RefsWellParsed;
    var p := s.predicate_;
    RecordSetRules(p);
    AstrayRule(p);
    EveryRowRules(p);
    SubstrateRule(p);
    BindingIs(s);
    if PARSE_TIMESTAMP(p.issuedAt).Some? {
      RowsRules(p, |p.rows|, ContextOf(s));
      RunRules(p, ContextOf(s));
    }
  }

  // ----- acceptance -----

  /** The result a statement has to carry. */
  predicate ResultDue(p: Predicate, result: string) {
    || (result == "fail" && Recompute.SomeFails(p))
    || (result == "degraded" && !Recompute.SomeFails(p) && Recompute.Incomplete(p))
    || (result == "pass_indirect" && !Recompute.SomeFails(p) && !Recompute.Incomplete(p) && Recompute.SomeIndirect(p))
    || (result == "pass" && !Recompute.SomeFails(p) && !Recompute.Incomplete(p) && !Recompute.SomeIndirect(p))
  }

  /** A parsed statement is accepted exactly when no condition of either gate raises its
      code and it carries the result that is due. */
  lemma AcceptedPlainly(s: Statement)
    requires Statements.WellParsed(s.predicate_, s.parseCodes)
    ensures Accepted.Accepts(s) <==>
              && EarlyFaults(s) == {} && LayerFaults(s.predicate_, {}) == {} && LateFaults(s) == {}
              && GateReady(s.predicate_) && Gate1Faults(s) == {}
              && ResultDue(s.predicate_, s.predicate_.result)
  {
    hide Gate0Codes, Gate1Codes, Accepted.Gate0Ok, Accepted.Gate1Ok, EarlyFaults, LayerFaults, LateFaults, Gate1Faults,
      Recompute.SomeFails, Recompute.Incomplete, Recompute.SomeIndirect, Recompute.Recomputed, Accepted.Accepts, GateReady,
      Statements.WellParsed;
    Accepted.AcceptsMeans(s);
    Accepted.Gate0Exactly(s);
    Gate0Rules(s);
    Recompute.ResultPlainly(s.predicate_);
    assert Gate0Codes(s) == {} <==> EarlyFaults(s) == {} && LayerFaults(s.predicate_, {}) == {} && LateFaults(s) == {} by {
      if EarlyFaults(s) == {} {
        assert LayerFaults(s.predicate_, EarlyFaults(s)) == LayerFaults(s.predicate_, {});
      } else {
        assert EarlyFaults(s) <= Gate0Codes(s);
      }
    }
    if GateReady(s.predicate_) {
      Accepted.Gate1Exactly(s);
      Gate1Rules(s);
    }
  }

  ghost function Gate0Faults(s: Statement): set<Code> {
    EarlyFaults(s) + LayerFaults(s.predicate_, EarlyFaults(s)) + LateFaults(s)
  }

  /** The codes of a parsed statement are those of the first gate that raises any, and
      the mismatch where only the result is not the one due. */
  lemma FaultsPlainly(s: Statement)
    requires Statements.WellParsed(s.predicate_, s.parseCodes)
    ensures Gate0Faults(s) == {} ==> GateReady(s.predicate_)
    ensures Evaluate.FaultCodes(s)
            == if Gate0Faults(s) != {} then Gate0Faults(s)
               else if Gate1Faults(s) != {} then Gate1Faults(s)
               else if ResultDue(s.predicate_, s.predicate_.result) then {}
               else {ResultRecomputeMismatch}
  {
    hide Gate0Codes, Gate1Codes, Accepted.Gate0Ok, Accepted.Gate1Ok, Gate0Faults, Gate1Faults, Recompute.SomeFails,
      Recompute.Incomplete, Recompute.SomeIndirect, Recompute.Recomputed, GateReady, Statements.WellParsed;
    Accepted.Gate0Exactly(s);
    assert Gate0Codes(s) == Gate0Faults(s) by { Gate0Sum(s); }
    Recompute.ResultPlainly(s.predicate_);
    if Accepted.Gate0Ok(s) {
      Accepted.Gate0Leaves(s);
      Accepted.Gate1Exactly(s);
      Gate1Rules(s);
    }
  }

  lemma Gate0Sum(s: Statement)
    ensures Gate0Codes(s) == Gate0Faults(s)
  {
    hide Gate0Codes, EarlyFaults, LayerFaults, LateFaults;
    Gate0Rules(s);
  }
}
