/** What the parse of a predicate stores and which codes it leaves, member by member. */
module ParseRules {
  import opened Core
  import opened Codes
  import opened Statements

  // ----- codes -----

  predicate BadRow(raw: Option<RawRow>) {
    match raw
    case None => true
    case Some(r) =>
      r.attackId.Failed? || r.containmentObserved.Failed? || r.basis.Failed? || r.method_.Failed?
      || r.attribution.Failed? || r.actualLayer.Failed?
  }

  /** The manifest is not looked at where it is empty. */
  predicate BadCorpus(o: Outcome<RawCorpus>) {
    match o
    case Missing => false
    case Failed(_) => true
    case Read(c) => |c.manifestRaw| > 0 && c.manifest == None
  }

  predicate BadEnvironment(o: Outcome<Option<RawEnvironment>>) {
    match o
    case Missing => false
    case Failed(_) => true
    case Read(None) => true
    case Read(Some(e)) =>
      e.substrate.Failed? || e.catchPolicy.Failed? || e.networkPosture.Failed? || e.vocabulary.Failed?
      || e.runEntropy.Failed? || BadCorpus(e.corpus)
  }

  predicate BadRows(o: Outcome<seq<Option<RawRow>>>) {
    match o
    case Missing => false
    case Failed(_) => true
    case Read(rows) => exists i :: 0 <= i < |rows| && BadRow(rows[i])
  }

  /** A result that is no string is reported as out of the vocabulary and an issuedAt that
      is none as malformed; whatever else does not decode is the malformed statement. The
      observationRefs of a row leave no code here. */
  lemma ParseCodes(raw: RawPredicate)
    ensures var malformed := BadEnvironment(raw.env) || raw.coverage.Failed? || BadRows(raw.rows) || raw.records.Failed?
                             || raw.batchRoot.Failed?;
            ParseFaults(raw)
            == (if raw.result.Failed? then {ResultVocabulary} else {})
               + (if malformed then {StatementMalformed} else {})
               + (if raw.issuedAt.Failed? then {IssuedAtMalformed} else {})
  {
    if raw.rows.Read? {
      BadRowsAre(raw.rows.value);
    }
  }

  lemma BadRowsAre(rows: seq<Option<RawRow>>)
    ensures RowsFault(rows) <==> exists i :: 0 <= i < |rows| && BadRow(rows[i])
  {
    if i :| 0 <= i < |rows| && RowFault(rows[i]) {
      assert BadRow(rows[i]);
    }
    if i :| 0 <= i < |rows| && BadRow(rows[i]) {
      assert RowFault(rows[i]);
    }
  }

  // ----- what is stored -----

  /** A string member of the predicate: present but undecodable it keeps what the decoder
      had stored. */
  predicate Stored(o: Outcome<string>, value: string, present: bool) {
    match o
    case Missing => value == "" && !present
    case Failed(left) => value == left && present
    case Read(v) => value == v && present
  }

  /** A member of the environment or of a row: undecodable it is as if it were absent. */
  predicate Optional<T(==)>(o: Outcome<T>, value: Option<T>) {
    match o
    case Missing => value == None
    case Failed(_) => value == None
    case Read(v) => value == Some(v)
  }

  predicate Plain(o: Outcome<string>, value: string) {
    value == if o.Read? then o.value else ""
  }

  /** The references are those in front of the first entry that is no plain decimal of an
      int64. */
  predicate RefsStored(o: Outcome<seq<RefEntry>>, row: Row) {
    match o
    case Missing => true
    case Failed(_) => row.refsErr
    case Read(entries) =>
      && |row.refs| <= |entries|
      && (forall i :: 0 <= i < |row.refs| ==> Spelled(entries[i], row.refs[i]))
      && (row.refsErr <==> exists i :: 0 <= i < |entries| && NotSpelled(entries[i]))
      && (!row.refsErr ==> |row.refs| == |entries|)
  }

  predicate Spelled(e: RefEntry, k: int) {
    0 <= k < 9223372036854775808 && EntryText(e) == Some(DecText(k))
  }

  predicate NotSpelled(e: RefEntry) {
    forall k: nat :: k < 9223372036854775808 ==> EntryText(e) != Some(DecText(k))
  }

  lemma SpelledIs(e: RefEntry, k: int)
    ensures Spelled(e, k) <==> DecodeRefIndex(e) == Some(k)
  {
    hide DecodeRefIndex, EntryText;
    if k >= 0 {
      RefIndexExactly(e, k);
    }
  }

  lemma NotSpelledIs(e: RefEntry)
    ensures NotSpelled(e) <==> DecodeRefIndex(e).None?
  {
    hide DecodeRefIndex, EntryText;
    if DecodeRefIndex(e).Some? {
      SpelledIs(e, DecodeRefIndex(e).value);
    } else {
      forall k: nat | k < 9223372036854775808 ensures EntryText(e) != Some(DecText(k)) {
        SpelledIs(e, k);
      }
    }
  }

  lemma RowStored(raw: RawRow, row: Row)
    requires RowReads(raw, row)
    ensures Plain(raw.attackId, row.attackId) && Plain(raw.containmentObserved, row.containmentObserved)
    ensures Optional(raw.basis, row.basis) && Optional(raw.method_, row.method_)
    ensures Optional(raw.attribution, row.attribution) && Optional(raw.actualLayer, row.actualLayer)
    ensures row.refsPresent == !raw.refs.Missing? && RefsStored(raw.refs, row)
  {
    hide DecodeRefIndex, Spelled, NotSpelled;
    if raw.refs.Read? {
      var entries := raw.refs.value;
      forall i | 0 <= i < |row.refs| ensures Spelled(entries[i], row.refs[i]) {
        SpelledIs(entries[i], row.refs[i]);
      }
      forall i | 0 <= i < |entries| ensures NotSpelled(entries[i]) <==> DecodeRefIndex(entries[i]).None? {
        NotSpelledIs(entries[i]);
      }
    }
  }

  lemma EnvironmentStored(raw: RawEnvironment, env: Environment)
    requires EnvironmentReads(raw, env)
    ensures Optional(raw.substrate, env.substrate) && Optional(raw.catchPolicy, env.catchPolicy)
    ensures Optional(raw.networkPosture, env.networkPosture) && Optional(raw.vocabulary, env.vocabulary)
    ensures Optional(raw.runEntropy, env.runEntropy) && env.postureRaw == raw.postureRaw
    ensures env.corpus.Some? <==> raw.corpus.Read?
    ensures raw.corpus.Read? ==>
              var c, r := env.corpus.value, raw.corpus.value;
              && c.digest == r.digest && c.manifestRaw == r.manifestRaw
              && (|r.manifestRaw| > 0 && r.manifest.Some? ==>
                    c.classes == r.manifest.value.classes && c.payloads == r.manifest.value.payloads)
              && (|r.manifestRaw| == 0 || r.manifest == None ==> c.classes == None && c.payloads == NoPayloads)
  {
  }

  /** What parsePredicate stores. */
  lemma PredicateStored(raw: RawPredicate, p: Predicate)
    requires PredicateReads(raw, p)
    ensures Stored(raw.result, p.result, p.resultPresent) && Stored(raw.batchRoot, p.batchRoot, p.batchRootPresent)
    ensures Stored(raw.issuedAt, p.issuedAt, p.issuedAtPresent) && Optional(raw.coverage, p.coverage)
    ensures p.coveragePresent == !raw.coverage.Missing? && p.rowsPresent == !raw.rows.Missing?
    ensures p.recordsPresent == !raw.records.Missing? && (p.env == None <==> raw.env.Missing?)
    ensures p.snakeCaseSpelling == raw.snakeCaseSpelling
    ensures raw.rows.Read? ==> |p.rows| == |raw.rows.value|
    ensures !raw.rows.Read? ==> p.rows == []
    ensures p.records == match raw.records { case Missing => [] case Failed(left) => left case Read(v) => v }
  {
    hide RowsRead, EnvironmentReads;
    if raw.rows.Read? {
      RowsStored(raw.rows.value, p.rows);
    }
  }

  lemma RowsStored(raw: seq<Option<RawRow>>, rows: seq<Row>)
    requires RowsRead(raw, rows)
    ensures |rows| == |raw| && forall i :: 0 <= i < |rows| && raw[i].Some? ==> RowReads(raw[i].value, rows[i])
  {
    hide RowReads;
  }
}
