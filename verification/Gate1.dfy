/** GATE 1, coverage validity (gate1WithContext in aee/validity.go), and the run binding
    it derives from the statement (aee/runbinding.go). */
module Gate1 {
  import opened Core
  import opened Json
  import opened Codes
  import opened Statements
  import opened Gate0
  import opened Payloads
  import opened Rows
  import opened RecordSet
  import opened Commitments
  import opened Seals
  import Binding

  // ----- the binding of a statement -----

  /** isJSONObject: the first byte that is no white space opens an object. */
  predicate IsJsonObject(raw: bytes) {
    SkipSpace(raw) != [] && SkipSpace(raw)[0] == OPEN_BRACE
  }

  method ScanJsonObject(raw: bytes) returns (r: bool)
    ensures r == IsJsonObject(raw)
  {
    assert raw[0..] == raw;
    for i := 0 to |raw|
      invariant SkipSpace(raw) == SkipSpace(raw[i..])
    {
      assert raw[i..][1..] == raw[i + 1..];
      if !IsSpace(raw[i]) {
        return raw[i] == OPEN_BRACE;
      }
    }
    return false;
  }

  /** posturePreimageDigest: the digest of the carried networkPosture object, "" when
      there is none to digest. */
  function PosturePreimage(env: Environment): (d: string)
    ensures d == "" || IsLowerHex64(d)
  {
    if env.postureRaw.None? || !IsJsonObject(env.postureRaw.value) then ""
    else
      match Canonicalize(env.postureRaw.value)
      case Err(_) => ""
      case Ok(canon) => SHA256Hex(canon)
  }

  function SubjectSha256(s: Statement): string {
    if s.subject != [] then Sha256Member(s.subject[0]) else ""
  }

  /** The inputs deriveStatementBinding passes on; empty without an environment. */
  function BindingInputs(s: Statement): Binding.Inputs {
    var env := s.predicate_.env;
    if env.None? then Binding.Inputs("", "", "", "", "", "", "")
    else
      var e := env.value;
      Binding.Inputs(
        RefSha256(e.catchPolicy),
        CorpusSha256(e.corpus),
        PosturePreimage(e),
        if e.vocabulary.Some? then Sha256Member(e.vocabulary.value.digest) else "",
        RefSha256(e.runEntropy),
        SubjectSha256(s),
        RefSha256(e.substrate))
  }

  function StatementBinding(s: Statement): string {
    Binding.DeriveRunBinding(BindingInputs(s))
  }

  // ----- the gate -----

  /** A row, of any basis, whose well-formed refs leave the record set. */
  predicate Dangling(p: Predicate, row: Row) {
    row.refsPresent && !row.refsErr && exists k :: 0 <= k < |row.refs| && !InRecords(p, row.refs[k])
  }

  predicate SomeDangling(p: Predicate) {
    exists i :: 0 <= i < |p.rows| && Dangling(p, p.rows[i])
  }

  /** anyObservationRefOutOfRange. */
  method AnyRefOutOfRange(p: Predicate) returns (r: bool)
    ensures r == SomeDangling(p)
  {
    for i := 0 to |p.rows|
      invariant forall j :: 0 <= j < i ==> !Dangling(p, p.rows[j])
    {
      var row := p.rows[i];
      if row.refsPresent && !row.refsErr {
        for k := 0 to |row.refs|
          invariant forall j :: 0 <= j < k ==> InRecords(p, row.refs[j])
        {
          if row.refs[k] < 0 || row.refs[k] >= |p.records| {
            assert Dangling(p, p.rows[i]);
            return true;
          }
        }
      }
    }
    return false;
  }

  predicate GateReady(p: Predicate) {
    && Readable(p)
    && (forall i :: 0 <= i < |p.rows| ==> RefsWellParsed(p.rows[i]))
    && (!p.recordsPresent ==> p.records == [])
  }

  /** The codes of the substrate rows among the first n. */
  function SubstrateRowCodes(p: Predicate, n: nat, ctx: Context): set<Code>
    requires GateReady(p) && n <= |p.rows|
  {
    if n == 0 then {}
    else
      var before := SubstrateRowCodes(p, n - 1, ctx);
      if IsSubstrate(p.rows[n - 1]) then Join(before, RowCodes(p, p.rows[n - 1], ctx)) else before
  }

  lemma {:induction false} SubstrateRowsOk(p: Predicate, n: nat, ctx: Context)
    requires GateReady(p) && n <= |p.rows|
    ensures SubstrateRowCodes(p, n, ctx) == {} <==>
              forall i :: 0 <= i < n && IsSubstrate(p.rows[i]) ==> RowOk(p, p.rows[i], ctx)
  {
    hide RowCodes, Readable, RefsWellParsed;
    if n > 0 {
      SubstrateRowsOk(p, n - 1, ctx);
    }
  }

  /** The codes before any row is looked at. */
  function OpeningCodes(p: Predicate): set<Code> {
    With(RecordSetCodes(p), p.records != [] && SomeDangling(p), RefOutOfRange)
  }

  function IssuedAtInstant(p: Predicate): int {
    var t := PARSE_TIMESTAMP(p.issuedAt);
    if t.Some? then t.value else 0
  }

  /** What the gate derives from the statement. */
  function ContextOf(s: Statement): Context {
    Context(StatementBinding(s), IssuedAtInstant(s.predicate_))
  }

  /** The codes of GATE 1. */
  ghost function Gate1Codes(s: Statement): set<Code>
    requires GateReady(s.predicate_)
  {
    var p := s.predicate_;
    var a := OpeningCodes(p);
    if !HasSubstrateRows(p) then Join(a, AnyBasisCodes(p))
    else if !p.recordsPresent then With(a, true, RecordsAbsent)
    else if PARSE_TIMESTAMP(p.issuedAt).None? then With(a, true, IssuedAtMalformed)
    else Join(Join(Join(a, SubstrateRowCodes(p, |p.rows|, ContextOf(s))), AnyBasisCodes(p)), SubstrateCodes(p, ContextOf(s)))
  }

  /** gate1WithContext. */
  method RunGate1(s: Statement) returns (states: seq<RecordState>, ctx: Context, codes: CodeList)
    requires GateReady(s.predicate_)
    ensures states == States(s.predicate_.records)
    ensures CodeSet(codes) == Gate1Codes(s)
    ensures codes == [] <==> Gate1Codes(s) == {}
    ensures HasSubstrateRows(s.predicate_) && codes == [] ==> ctx == ContextOf(s)
  {
    hide CodeSet, RecordSetCodes, SomeDangling, AnyBasisCodes, SubstrateCodes, SubstrateRowCodes, HasSubstrateRows,
      StatementBinding, States, Readable, RefsWellParsed;
    var p := s.predicate_;
    states, codes := CheckRecordSet(p);
    ctx := Context("", 0);
    var dangling := AnyRefOutOfRange(p);
    if |p.records| > 0 && dangling {
      codes := AppendCode(codes, RefOutOfRange);
    }
    assert CodeSet(codes) == OpeningCodes(p);
    var substrate := HasSubstrate(p);
    if !substrate {
      var any := CommitmentsAnyBasis(p, states);
      codes := AppendCodes(codes, any);
      return;
    }
    if !p.recordsPresent {
      codes := AppendCode(codes, RecordsAbsent);
      return;
    }
    ctx := ctx.(binding := StatementBinding(s));
    if PARSE_TIMESTAMP(p.issuedAt).None? {
      codes := AppendCode(codes, IssuedAtMalformed);
      return;
    }
    ctx := ctx.(issuedAt := PARSE_TIMESTAMP(p.issuedAt).value);
    var rows := CheckSubstrateRows(p, states, ctx);
    codes := AppendCodes(codes, rows);
    var any := CommitmentsAnyBasis(p, states);
    codes := AppendCodes(codes, any);
    var sealed := CommitmentsSubstrate(p, states, ctx);
    codes := AppendCodes(codes, sealed);
  }

  /** The loop over the substrate rows. */
  method CheckSubstrateRows(p: Predicate, states: seq<RecordState>, ctx: Context) returns (codes: CodeList)
    requires GateReady(p) && states == States(p.records)
    ensures CodeSet(codes) == SubstrateRowCodes(p, |p.rows|, ctx)
  {
    hide CodeSet, RowCodes, States, Covering, Readable, RefsWellParsed;
    codes := [];
    assert CodeSet([]) == {};
    for i := 0 to |p.rows|
      invariant CodeSet(codes) == SubstrateRowCodes(p, i, ctx)
    {
      if IsSubstrate(p.rows[i]) {
        var rowCodes, _ := CheckSubstrateRow(p, p.rows[i], states, ctx);
        codes := AppendCodes(codes, rowCodes);
      }
    }
  }
}
