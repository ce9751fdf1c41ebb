/** The parsed statement of aee/types.go, and the parse that fills it from what
    encoding/json made of each member. */
module Statements {
  import opened Core
  import opened Codes
  import opened Numbers

  const STATEMENT_TYPE: string := "https://in-toto.io/Statement/v1"
  const PREDICATE_TYPE: string := "https://in-toto.io/attestation/adversarial-execution-evidence/v0.7"

  const RESULT_PASS: string := "pass"
  const RESULT_PASS_INDIRECT: string := "pass_indirect"
  const RESULT_DEGRADED: string := "degraded"
  const RESULT_FAIL: string := "fail"

  const BASIS_SUBSTRATE: string := "substrate"
  const BASIS_ARTIFACT: string := "artifact"
  const METHOD_INTERCEPTED: string := "intercepted"
  const METHOD_RECONSTRUCTED: string := "reconstructed"
  const ATTRIBUTION_PINNED: string := "pinned"
  const ATTRIBUTION_PAIRED: string := "paired"
  const LAYER_NONE: string := "none"

  const KIND_INTERCEPTION: string := "interception"
  const KIND_ARMING: string := "arming"
  const KIND_SEALED: string := "sealed"
  const KIND_EXAMINATION: string := "examination"
  const KIND_MOAT_DROP: string := "moat-drop"
  const KIND_UNCOMMITTED_OBSERVATION: string := "uncommitted-observation"

  const EGRESS_POSTURES: set<string> := {"no_network", "allowlist", "sinkhole", "unsafe_bypass_egress"}

  /** parseTimestamp as an uninterpreted partial map to instants: RFC 3339 with a zero
      offset is not part of this model. */
  const PARSE_TIMESTAMP: string -> Option<int>

  // ----- the statement -----

  type DigestSet = map<string, string>
  type Classes = map<string, seq<string>>

  /** The sha256 member, "" when absent. */
  function Sha256Member(d: DigestSet): string {
    if "sha256" in d then d["sha256"] else ""
  }

  function RefSha256(d: Option<DigestSet>): string {
    if d.Some? then Sha256Member(d.value) else ""
  }

  datatype ExpectedPayloads = NoPayloads | MalformedPayloads | Payloads(entries: map<string, seq<string>>)

  datatype Corpus = Corpus(digest: DigestSet, manifestRaw: bytes, classes: Option<Classes>, payloads: ExpectedPayloads)

  datatype NetworkPosture = NetworkPosture(posture: string, digest: DigestSet)

  datatype Vocabulary = Vocabulary(
    digest: DigestSet, labels: seq<string>, caught: seq<string>, labelsPresent: bool, caughtPresent: bool)

  /** postureRaw is the raw networkPosture member. */
  datatype Environment = Environment(
    substrate: Option<DigestSet>,
    corpus: Option<Corpus>,
    catchPolicy: Option<DigestSet>,
    networkPosture: Option<NetworkPosture>,
    vocabulary: Option<Vocabulary>,
    runEntropy: Option<DigestSet>,
    postureRaw: Option<bytes>)

  datatype Coverage = Coverage(
    assessedClasses: seq<string>, outOfScope: map<string, string>, routedElsewhere: map<string, string>)

  datatype Row = Row(
    attackId: string,
    containmentObserved: string,
    basis: Option<string>,
    method_: Option<string>,
    attribution: Option<string>,
    actualLayer: Option<string>,
    refsPresent: bool,
    refsErr: bool,
    refs: seq<int>)

  /** payload and each signature as strict base64 decodes them, None where it does
      not. */
  datatype Record = Record(payload: Option<bytes>, payloadType: string, signatures: seq<Option<bytes>>)

  datatype Predicate = Predicate(
    snakeCaseSpelling: bool,
    result: string,
    resultPresent: bool,
    env: Option<Environment>,
    coverage: Option<Coverage>,
    coveragePresent: bool,
    rows: seq<Row>,
    rowsPresent: bool,
    records: seq<Record>,
    recordsPresent: bool,
    batchRoot: string,
    batchRootPresent: bool,
    issuedAt: string,
    issuedAtPresent: bool)

  datatype Statement = Statement(
    type_: string,
    predicateType: string,
    subject: seq<DigestSet>,
    predicate_: Predicate,
    parseCodes: CodeList)

  predicate IsSubstrate(row: Row) {
    row.basis == Some(BASIS_SUBSTRATE)
  }

  predicate HasSubstrateRows(p: Predicate) {
    exists i :: 0 <= i < |p.rows| && IsSubstrate(p.rows[i])
  }

  // ----- parsing -----

  /** One member as encoding/json left it: absent, refused (with what the decoder had
      already stored), or read. */
  datatype Outcome<+T> = Missing | Failed(left: T) | Read(value: T)

  /** An observationRefs entry: a number token, a string with these bytes, or anything
      else. */
  datatype RefEntry = Token(n: Number) | Quoted(text: bytes) | Other

  datatype RawRow = RawRow(
    attackId: Outcome<string>,
    containmentObserved: Outcome<string>,
    basis: Outcome<string>,
    method_: Outcome<string>,
    attribution: Outcome<string>,
    actualLayer: Outcome<string>,
    refs: Outcome<seq<RefEntry>>)

  datatype Manifest = Manifest(classes: Option<Classes>, payloads: ExpectedPayloads)

  /** manifest is what the raw manifest decodes to. */
  datatype RawCorpus = RawCorpus(digest: DigestSet, manifestRaw: bytes, manifest: Option<Manifest>)

  datatype RawEnvironment = RawEnvironment(
    substrate: Outcome<DigestSet>,
    corpus: Outcome<RawCorpus>,
    catchPolicy: Outcome<DigestSet>,
    networkPosture: Outcome<NetworkPosture>,
    vocabulary: Outcome<Vocabulary>,
    runEntropy: Outcome<DigestSet>,
    postureRaw: Option<bytes>)

  /** env holds None, and rows an entry None, where the value is not an object. */
  datatype RawPredicate = RawPredicate(
    snakeCaseSpelling: bool,
    result: Outcome<string>,
    env: Outcome<Option<RawEnvironment>>,
    coverage: Outcome<Coverage>,
    rows: Outcome<seq<Option<RawRow>>>,
    records: Outcome<seq<Record>>,
    batchRoot: Outcome<string>,
    issuedAt: Outcome<string>)

  const INT64_BOUND: int := 0x8000_0000_0000_0000

  /** What a json.Number holds after the decode: a number token, or a string that is
      one from end to end. */
  function NumberOf(e: RefEntry): Option<Number> {
    match e
    case Token(n) => Some(n)
    case Quoted(text) =>
      var n := LexNumber(text);
      if n.Some? && n.value.rest == [] then Some(n.value.token) else None
    case Other => None
  }

  /** decodeRefIndex. */
  function DecodeRefIndex(e: RefEntry): (r: Option<int>)
    ensures r.Some? ==> 0 <= r.value < INT64_BOUND
  {
    var n := NumberOf(e);
    if n.None? then None else IndexOf(n.value)
  }

  function IndexOf(n: Number): (r: Option<int>)
    ensures r.Some? ==> 0 <= r.value < INT64_BOUND
  {
    var i := PlainInt(n);
    if i.None? || i.value < -INT64_BOUND || i.value >= INT64_BOUND then None
    else if LiteralText(n) != IntText(i.value) then None
    else if i.value < 0 then None
    else Some(i.value)
  }

  /** The entry's text, without the quotes of a string. */
  function EntryText(e: RefEntry): Option<bytes> {
    match e
    case Token(n) => Some(LiteralText(n))
    case Quoted(text) => Some(text)
    case Other => None
  }

  lemma IndexExactly(n: Number, k: nat)
    ensures IndexOf(n) == Some(k) <==> k < INT64_BOUND && LiteralText(n) == DecText(k)
  {
    hide LiteralText, PlainInt;
    if LiteralText(n) == DecText(k) {
      PlainTexts(n);
    }
  }

  /** A string is the text of the number it holds, and every number's text is held. */
  lemma QuotedHolds(text: bytes, k: nat)
    ensures NumberOf(Quoted(text)).Some? ==> LiteralText(NumberOf(Quoted(text)).value) == text
    ensures NumberOf(Quoted(DecText(k))).Some?
  {
    hide LexNumber, LiteralText, IntText;
    if NumberOf(Quoted(text)).Some? {
      var t := LiteralText(NumberOf(Quoted(text)).value);
      assert t + [] == t;
    }
    var l := PlainLiteral(k);
    assert IntText(k) == DecText(k) by { NaturalText(k); }
    assert DecText(k) + [] == DecText(k);
    LexNumberText(l, []);
  }

  lemma NaturalText(k: nat)
    ensures IntText(k) == DecText(k)
  {
  }

  /** An entry is accepted as k exactly when its token, or its string, is the plain
      decimal text of k and k is an int64. */
  lemma RefIndexExactly(e: RefEntry, k: nat)
    ensures DecodeRefIndex(e) == Some(k) <==> k < INT64_BOUND && EntryText(e) == Some(DecText(k))
  {
    hide LexNumber, LiteralText, IndexOf, NumberOf, DecText;
    match e
    case Token(n) =>
      assert NumberOf(e) == Some(n) by { TokenHolds(n); }
      IndexExactly(n, k);
    case Quoted(text) =>
      QuotedHolds(text, k);
      if NumberOf(e).Some? {
        IndexExactly(NumberOf(e).value, k);
      }
    case Other =>
      assert NumberOf(Other).None? by { OtherHolds(); }
  }

  lemma TokenHolds(n: Number)
    ensures NumberOf(Token(n)) == Some(n)
  {
  }

  lemma OtherHolds()
    ensures NumberOf(Other).None?
  {
  }

  predicate Denotes(n: Number, k: int) {
    Value(n) == k as real
  }

  /** A non-negative JSON integer. */
  ghost predicate JsonInteger(e: RefEntry) {
    e.Token? && exists k: nat :: Denotes(e.n, k)
  }

  /** The rule is described as: an entry is a non-negative JSON integer. Among the
      entries accepted, those that are number tokens meet it, and no other. */
  lemma RefIndexMeetsDescription(e: RefEntry)
    requires DecodeRefIndex(e).Some?
    ensures JsonInteger(e) <==> e.Token?
  {
    hide LiteralText, IntegerOf, Value;
    if e.Token? {
      var k := DecodeRefIndex(e).value;
      PlainNotationValue(e.n);
      IntegerOfValue(e.n, k);
      assert Denotes(e.n, k);
    }
  }

  /** The entry "0", a string, is accepted as 0. */
  lemma QuotedIndexAccepted()
    ensures DecodeRefIndex(Quoted([ZERO])) == Some(0) && !JsonInteger(Quoted([ZERO]))
  {
    RefIndexExactly(Quoted([ZERO]), 0);
    assert DecText(0) == [ZERO];
  }

  /** A literal that spells a natural number is in plain notation and reads as it. */
  lemma PlainTexts(l: Number)
    ensures forall k: nat :: LiteralText(l) == DecText(k) ==> PlainInt(l) == Some(k)
  {
    forall k: nat | LiteralText(l) == DecText(k) ensures PlainInt(l) == Some(k) {
      PlainTextOf(l, DecText(k));
    }
  }

  lemma PlainTextOf(l: Number, ds: bytes)
    requires LiteralText(l) == ds && AllDigits(ds)
    ensures PlainNotation(l) && !l.neg && l.whole == ds
  {
    MarksShow(l);
  }

  /** A sign, a point or an exponent mark shows in the text. */
  lemma MarksShow(l: Number)
    ensures l.neg ==> MINUS in LiteralText(l)
    ensures l.frac.Some? ==> DOT in LiteralText(l)
    ensures l.exp.Some? ==> l.exp.value.mark in LiteralText(l)
    ensures !l.neg && PlainNotation(l) ==> LiteralText(l) == l.whole
  {
    var text := LiteralText(l);
    var n := (if l.neg then 1 else 0) + |l.whole|;
    if l.neg {
      assert text[0] == MINUS;
    }
    if l.frac.Some? {
      assert text[n] == DOT;
    }
    if l.exp.Some? {
      assert text[n + |FracText(l.frac)|] == l.exp.value.mark;
    }
  }

  /** What the gates rely on in a row: refs holds no negative index even where it is
      the prefix before a bad entry. */
  predicate RefsWellParsed(row: Row) {
    && (forall i :: 0 <= i < |row.refs| ==> row.refs[i] >= 0)
    && (!row.refsPresent ==> row.refs == [] && !row.refsErr)
  }

  /** What the gates rely on in a statement: a coverage that is present but was not read
      is absent and has left a code. */
  predicate WellParsed(p: Predicate, codes: seq<Code>) {
    && (p.coveragePresent && p.coverage.None? ==> StatementMalformed in codes)
    && (!p.coveragePresent ==> p.coverage.None?)
    && (forall i :: 0 <= i < |p.rows| ==> RefsWellParsed(p.rows[i]))
    && (!p.rowsPresent ==> p.rows == [])
    && (!p.recordsPresent ==> p.records == [])
  }

  function Text(o: Outcome<string>): Option<string> {
    if o.Read? then Some(o.value) else None
  }

  function TextOrEmpty(o: Outcome<string>): string {
    if o.Read? then o.value else ""
  }

  /** What a failed decode into a string field leaves there. */
  function Left(o: Outcome<string>): string {
    match o
    case Missing => ""
    case Failed(left) => left
    case Read(v) => v
  }

  /** A row carries the members read; every entry of refs is a decoded one, all of them
      unless refsErr. */
  predicate RowReads(raw: RawRow, row: Row) {
    && row.attackId == TextOrEmpty(raw.attackId)
    && row.containmentObserved == TextOrEmpty(raw.containmentObserved)
    && row.basis == Text(raw.basis) && row.method_ == Text(raw.method_)
    && row.attribution == Text(raw.attribution) && row.actualLayer == Text(raw.actualLayer)
    && row.refsPresent == !raw.refs.Missing?
    && (row.refsErr <==> raw.refs.Failed? ||
                         (raw.refs.Read? && exists i :: 0 <= i < |raw.refs.value| && DecodeRefIndex(raw.refs.value[i]).None?))
    && (raw.refs.Read? ==>
          && |row.refs| <= |raw.refs.value|
          && (forall i :: 0 <= i < |row.refs| ==> DecodeRefIndex(raw.refs.value[i]) == Some(row.refs[i]))
          && (!row.refsErr ==> |row.refs| == |raw.refs.value|))
  }

  predicate RowFault(raw: Option<RawRow>) {
    raw.None? || raw.value.attackId.Failed? || raw.value.containmentObserved.Failed? || raw.value.basis.Failed?
    || raw.value.method_.Failed? || raw.value.attribution.Failed? || raw.value.actualLayer.Failed?
  }

  const EMPTY_ROW: Row := Row("", "", None, None, None, None, false, false, [])

  /** parseRow. */
  method ParseRow(raw: Option<RawRow>) returns (row: Row, codes: CodeList)
    ensures RefsWellParsed(row)
    ensures raw.Some? ==> RowReads(raw.value, row)
    ensures CodeSet(codes) == With({}, RowFault(raw), StatementMalformed)
  {
    row, codes := EMPTY_ROW, [];
    if raw.None? {
      codes := AppendCode(codes, StatementMalformed);
      return;
    }
    var r := raw.value;
    if RowFault(raw) {
      codes := AppendCode(codes, StatementMalformed);
    }
    row := row.(attackId := TextOrEmpty(r.attackId), containmentObserved := TextOrEmpty(r.containmentObserved),
      basis := Text(r.basis), method_ := Text(r.method_), attribution := Text(r.attribution),
      actualLayer := Text(r.actualLayer));
    if !r.refs.Missing? {
      row := row.(refsPresent := true);
      if r.refs.Failed? {
        row := row.(refsErr := true);
      } else {
        var refs, err := DecodeRefs(r.refs.value);
        row := row.(refs := refs, refsErr := err);
      }
    }
  }

  /** The loop over observationRefs: stops at the first bad entry. */
  method DecodeRefs(entries: seq<RefEntry>) returns (refs: seq<int>, err: bool)
    ensures |refs| <= |entries|
    ensures forall i :: 0 <= i < |refs| ==> refs[i] >= 0 && DecodeRefIndex(entries[i]) == Some(refs[i])
    ensures err <==> exists i :: 0 <= i < |entries| && DecodeRefIndex(entries[i]).None?
    ensures !err ==> |refs| == |entries|
  {
    refs := [];
    for i := 0 to |entries|
      invariant |refs| == i
      invariant forall k :: 0 <= k < i ==> refs[k] >= 0 && DecodeRefIndex(entries[k]) == Some(refs[k])
    {
      var idx := DecodeRefIndex(entries[i]);
      if idx.None? {
        return refs, true;
      }
      refs := refs + [idx.value];
    }
    return refs, false;
  }

  // ----- the environment -----

  function Kept<T>(o: Outcome<T>): Option<T> {
    if o.Read? then Some(o.value) else None
  }

  /** The corpus members, its manifest decoded where it was. */
  predicate CorpusReads(o: Outcome<RawCorpus>, c: Option<Corpus>) {
    && (c.Some? <==> o.Read?)
    && (c.Some? ==>
          && c.value.digest == o.value.digest && c.value.manifestRaw == o.value.manifestRaw
          && (o.value.manifestRaw != [] && o.value.manifest.Some? ==>
                c.value.classes == o.value.manifest.value.classes && c.value.payloads == o.value.manifest.value.payloads)
          && (o.value.manifestRaw == [] || o.value.manifest.None? ==> c.value.classes.None? && c.value.payloads.NoPayloads?))
  }

  predicate EnvironmentReads(raw: RawEnvironment, env: Environment) {
    && env.substrate == Kept(raw.substrate)
    && CorpusReads(raw.corpus, env.corpus)
    && env.catchPolicy == Kept(raw.catchPolicy)
    && env.networkPosture == Kept(raw.networkPosture)
    && env.vocabulary == Kept(raw.vocabulary)
    && env.runEntropy == Kept(raw.runEntropy)
    && env.postureRaw == raw.postureRaw
  }

  predicate EnvironmentFault(raw: Option<RawEnvironment>) {
    raw.None? || raw.value.substrate.Failed? || raw.value.corpus.Failed? || raw.value.catchPolicy.Failed?
    || raw.value.networkPosture.Failed? || raw.value.vocabulary.Failed? || raw.value.runEntropy.Failed?
    || (raw.value.corpus.Read? && raw.value.corpus.value.manifestRaw != [] && raw.value.corpus.value.manifest.None?)
  }

  /** parseEnvironment: a member that does not decode is absent and leaves the
      catch-all code. */
  method ParseEnvironment(raw: Option<RawEnvironment>) returns (env: Environment, codes: CodeList)
    ensures raw.Some? ==> EnvironmentReads(raw.value, env)
    ensures CodeSet(codes) == With({}, EnvironmentFault(raw), StatementMalformed)
  {
    env, codes := Environment(None, None, None, None, None, None, None), [];
    if raw.None? {
      codes := AppendCode(codes, StatementMalformed);
      return;
    }
    var r := raw.value;
    env := env.(substrate := Kept(r.substrate), catchPolicy := Kept(r.catchPolicy),
      networkPosture := Kept(r.networkPosture), vocabulary := Kept(r.vocabulary),
      runEntropy := Kept(r.runEntropy), postureRaw := r.postureRaw);
    if r.substrate.Failed? || r.catchPolicy.Failed? || r.networkPosture.Failed? || r.vocabulary.Failed?
       || r.runEntropy.Failed? || r.corpus.Failed? {
      codes := AppendCode(codes, StatementMalformed);
    }
    if r.corpus.Read? {
      var c := Corpus(r.corpus.value.digest, r.corpus.value.manifestRaw, None, NoPayloads);
      if |c.manifestRaw| > 0 {
        if r.corpus.value.manifest.None? {
          codes := AppendCode(codes, StatementMalformed);
        } else {
          var m := r.corpus.value.manifest.value;
          c := c.(classes := m.classes, payloads := m.payloads);
        }
      }
      env := env.(corpus := Some(c));
    }
  }

  // ----- the predicate -----

  predicate RowsFault(rows: seq<Option<RawRow>>) {
    exists i :: 0 <= i < |rows| && RowFault(rows[i])
  }

  predicate RowsRead(raw: seq<Option<RawRow>>, rows: seq<Row>) {
    && |rows| == |raw|
    && forall i :: 0 <= i < |rows| ==> RefsWellParsed(rows[i]) && (raw[i].Some? ==> RowReads(raw[i].value, rows[i]))
  }

  method ParseRows(raw: seq<Option<RawRow>>, before: CodeList) returns (rows: seq<Row>, codes: CodeList)
    ensures RowsRead(raw, rows)
    ensures CodeSet(codes) == With(CodeSet(before), RowsFault(raw), StatementMalformed)
  {
    hide RowReads, RowFault, RefsWellParsed;
    rows, codes := [], before;
    for i := 0 to |raw|
      invariant |rows| == i
      invariant forall k :: 0 <= k < i ==> RefsWellParsed(rows[k]) && (raw[k].Some? ==> RowReads(raw[k].value, rows[k]))
      invariant CodeSet(codes) == With(CodeSet(before), exists k :: 0 <= k < i && RowFault(raw[k]), StatementMalformed)
    {
      var row, rowCodes := ParseRow(raw[i]);
      rows := rows + [row];
      codes := AppendCodes(codes, rowCodes);
    }
  }

  /** What a decode leaves in the record slice. */
  function RecordsLeft(o: Outcome<seq<Record>>): seq<Record> {
    match o
    case Missing => []
    case Failed(left) => left
    case Read(v) => v
  }

  /** Each member as read, its presence recorded whether it was read or not. */
  predicate PredicateReads(raw: RawPredicate, p: Predicate) {
    && p.snakeCaseSpelling == raw.snakeCaseSpelling
    && p.result == Left(raw.result) && p.resultPresent == !raw.result.Missing?
    && (p.env.Some? <==> !raw.env.Missing?)
    && (raw.env.Read? && raw.env.value.Some? ==> EnvironmentReads(raw.env.value.value, p.env.value))
    && p.coverage == Kept(raw.coverage) && p.coveragePresent == !raw.coverage.Missing?
    && p.rowsPresent == !raw.rows.Missing?
    && (if raw.rows.Read? then RowsRead(raw.rows.value, p.rows) else p.rows == [])
    && p.recordsPresent == !raw.records.Missing?
    && p.records == RecordsLeft(raw.records)
    && p.batchRoot == Left(raw.batchRoot) && p.batchRootPresent == !raw.batchRoot.Missing?
    && p.issuedAt == Left(raw.issuedAt) && p.issuedAtPresent == !raw.issuedAt.Missing?
  }

  /** The codes of a parse: the catch-all, but for result and issuedAt. */
  function ParseFaults(raw: RawPredicate): set<Code> {
    With(With(With({}, raw.result.Failed?, ResultVocabulary),
      || (raw.env.Failed? || (raw.env.Read? && EnvironmentFault(raw.env.value)))
      || raw.coverage.Failed? || raw.rows.Failed? || (raw.rows.Read? && RowsFault(raw.rows.value))
      || raw.records.Failed? || raw.batchRoot.Failed?, StatementMalformed),
      raw.issuedAt.Failed?, IssuedAtMalformed)
  }

  /** The part of parsePredicate that decodes further, and its codes. */
  method ParseMembers(raw: RawPredicate) returns (env: Option<Environment>, rows: seq<Row>, codes: CodeList)
    ensures env.Some? <==> !raw.env.Missing?
    ensures raw.env.Read? && raw.env.value.Some? ==> EnvironmentReads(raw.env.value.value, env.value)
    ensures if raw.rows.Read? then RowsRead(raw.rows.value, rows) else rows == []
    ensures CodeSet(codes) == ParseFaults(raw)
  {
    hide RowsRead, RowsFault, EnvironmentReads, EnvironmentFault, RefsWellParsed, CodeSet;
    ghost var base := With({}, raw.result.Failed?, ResultVocabulary);
    codes := [];
    assert CodeSet(codes) == {};
    if raw.result.Failed? {
      codes := AppendCode(codes, ResultVocabulary);
    }
    codes := NoteMalformed(codes, base, false, raw.env.Failed?);
    ghost var bad := raw.env.Failed?;
    env := None;
    if !raw.env.Missing? {
      var e, envCodes := ParseEnvironment(if raw.env.Read? then raw.env.value else None);
      env := Some(e);
      codes := AppendCodes(codes, envCodes);
      bad := bad || EnvironmentFault(if raw.env.Read? then raw.env.value else None);
      EmptyFault();
    }
    assert CodeSet(codes) == With(base, bad, StatementMalformed);
    codes := NoteMalformed(codes, base, bad, raw.coverage.Failed?);
    bad := bad || raw.coverage.Failed?;
    codes := NoteMalformed(codes, base, bad, raw.rows.Failed?);
    bad := bad || raw.rows.Failed?;
    rows := [];
    if raw.rows.Read? {
      rows, codes := ParseRows(raw.rows.value, codes);
      bad := bad || RowsFault(raw.rows.value);
    }
    assert CodeSet(codes) == With(base, bad, StatementMalformed);
    codes := NoteMalformed(codes, base, bad, raw.records.Failed?);
    bad := bad || raw.records.Failed?;
    codes := NoteMalformed(codes, base, bad, raw.batchRoot.Failed?);
    bad := bad || raw.batchRoot.Failed?;
    if raw.issuedAt.Failed? {
      codes := AppendCode(codes, IssuedAtMalformed);
    }
  }

  /** parsePredicate. */
  method ParsePredicate(raw: RawPredicate) returns (p: Predicate, codes: CodeList)
    ensures PredicateReads(raw, p)
    ensures CodeSet(codes) == ParseFaults(raw)
    ensures WellParsed(p, codes)
  {
    hide RowsFault, EnvironmentReads, EnvironmentFault, RefsWellParsed, RowReads, Left;
    var env, rows, parsed := ParseMembers(raw);
    codes := parsed;
    p := Predicate(raw.snakeCaseSpelling, Left(raw.result), !raw.result.Missing?, env, Kept(raw.coverage),
      !raw.coverage.Missing?, rows, !raw.rows.Missing?,
      RecordsLeft(raw.records),
      !raw.records.Missing?, Left(raw.batchRoot), !raw.batchRoot.Missing?, Left(raw.issuedAt), !raw.issuedAt.Missing?);
    assert StatementMalformed in CodeSet(codes) ==> StatementMalformed in codes;
  }

  lemma EmptyFault()
    ensures EnvironmentFault(None)
  {
  }

  /** The catch-all code, if this member failed too. */
  method NoteMalformed(codes: CodeList, ghost base: set<Code>, ghost bad: bool, failed: bool) returns (r: CodeList)
    requires CodeSet(codes) == With(base, bad, StatementMalformed)
    ensures CodeSet(r) == With(base, bad || failed, StatementMalformed)
  {
    r := codes;
    if failed {
      r := AppendCode(codes, StatementMalformed);
    }
  }
}
