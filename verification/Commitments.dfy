/** The requirements of aee/commitments.go that hold on the statement, or on every row
    whatever its basis. */
module Commitments {
  import opened Core
  import opened Json
  import opened Codec
  import opened Codes
  import opened Statements
  import opened CorpusManifest
  import opened Gate0
  import opened Payloads
  import opened Rows
  import opened RecordSet

  /** recordKinds: "" for a record that shows no kind. */
  method RecordKinds(p: Predicate, states: seq<RecordState>) returns (kinds: seq<string>)
    requires states == States(p.records)
    ensures KindsOf(p, kinds)
  {
    hide ParseJson, ObjString;
    kinds := [];
    for i := 0 to |p.records|
      invariant |kinds| == i && forall k :: 0 <= k < i ==> kinds[k] == RecordKind(p, k)
    {
      var kind := "";
      if states[i].payload.Some? {
        var v := ParseJsonValue(states[i].payload.value);
        if v.Ok? && v.value.Obj? {
          var k := ObjString(v.value, KIND);
          if k.Some? {
            kind := k.value;
          }
        } else {
          NoMembers(Null, KIND);
        }
      } else {
        NoMembers(Null, KIND);
      }
      kinds := kinds + [kind];
    }
  }

  lemma NoMembers(v: Value, name: string)
    requires !v.Obj?
    ensures ObjString(v, name).None?
  {
  }

  predicate KindsOf(p: Predicate, kinds: seq<string>) {
    |kinds| == |p.records| && forall i :: 0 <= i < |kinds| ==> kinds[i] == RecordKind(p, i)
  }

  // ----- rows and the records they resolve -----

  predicate InRecords(p: Predicate, i: int) {
    0 <= i < |p.records|
  }

  /** The row resolves index i; a row whose refs are malformed resolves nothing. */
  predicate Resolves(p: Predicate, row: Row, i: int) {
    row.refsPresent && !row.refsErr && InRecords(p, i) && i in row.refs
  }

  predicate ResolvesKind(p: Predicate, row: Row, kind: string) {
    row.refsPresent && !row.refsErr
    && exists k :: 0 <= k < |row.refs| && InRecords(p, row.refs[k]) && RecordKind(p, row.refs[k]) == kind
  }

  /** rowResolves. */
  method RowResolves(p: Predicate, row: Row, kinds: seq<string>, kind: string) returns (r: bool)
    requires KindsOf(p, kinds)
    ensures r == ResolvesKind(p, row, kind)
  {
    hide RecordKind;
    if !row.refsPresent || row.refsErr {
      return false;
    }
    for k := 0 to |row.refs|
      invariant forall j :: 0 <= j < k ==> !(InRecords(p, row.refs[j]) && RecordKind(p, row.refs[j]) == kind)
    {
      var idx := row.refs[k];
      if idx >= 0 && idx < |kinds| && kinds[idx] == kind {
        return true;
      }
    }
    return false;
  }

  /** A clean row that points at an interception. */
  predicate ContradictedRow(p: Predicate, row: Row)
    requires Readable(p)
  {
    CleanLabel(Voc(p), row.containmentObserved) && ResolvesKind(p, row, KIND_INTERCEPTION)
  }

  predicate CleanContradicted(p: Predicate)
    requires Readable(p)
  {
    exists i :: 0 <= i < |p.rows| && ContradictedRow(p, p.rows[i])
  }

  method CleanRowsContradicted(p: Predicate, kinds: seq<string>) returns (codes: CodeList)
    requires Readable(p) && KindsOf(p, kinds)
    ensures CodeSet(codes) == With({}, CleanContradicted(p), CleanRowContradicted)
  {
    hide ResolvesKind, CleanLabel;
    for i := 0 to |p.rows|
      invariant forall k :: 0 <= k < i ==> !ContradictedRow(p, p.rows[k])
    {
      if CleanLabel(Voc(p), p.rows[i].containmentObserved) {
        var resolves := RowResolves(p, p.rows[i], kinds, KIND_INTERCEPTION);
        if resolves {
          assert ContradictedRow(p, p.rows[i]);
          codes := AppendCode([], CleanRowContradicted);
          return;
        }
      }
    }
    return [];
  }

  /** Some caught row among them resolves record i. */
  predicate CaughtResolves(p: Predicate, rows: seq<Row>, i: int)
    requires Readable(p)
  {
    exists k :: 0 <= k < |rows| && CaughtLabel(Voc(p), rows[k].containmentObserved) && Resolves(p, rows[k], i)
  }

  predicate OrphanedAt(p: Predicate, i: int)
    requires Readable(p) && InRecords(p, i)
  {
    RecordKind(p, i) == KIND_INTERCEPTION && !CaughtResolves(p, p.rows, i)
  }

  predicate Orphaned(p: Predicate)
    requires Readable(p)
  {
    exists i :: 0 <= i < |p.records| && OrphanedAt(p, i)
  }

  method InterceptionsOrphaned(p: Predicate, kinds: seq<string>) returns (codes: CodeList)
    requires Readable(p) && KindsOf(p, kinds)
    ensures CodeSet(codes) == With({}, Orphaned(p), InterceptionRecordOrphaned)
  {
    hide CaughtLabel, RecordKind, CodeSet;
    var resolved := MarkResolved(p);
    for i := 0 to |p.records|
      invariant forall k :: 0 <= k < i ==> !OrphanedAt(p, k)
    {
      if kinds[i] == KIND_INTERCEPTION && !resolved[i] {
        assert OrphanedAt(p, i);
        codes := AppendCode([], InterceptionRecordOrphaned);
        assert CodeSet([]) == {};
        return;
      }
    }
    codes := [];
    assert CodeSet([]) == {};
  }

  /** The loop that fills resolved. */
  method MarkResolved(p: Predicate) returns (resolved: array<bool>)
    requires Readable(p)
    ensures fresh(resolved) && resolved.Length == |p.records|
    ensures forall i :: 0 <= i < resolved.Length ==> (resolved[i] <==> CaughtResolves(p, p.rows, i))
  {
    hide CaughtLabel;
    resolved := new bool[|p.records|](_ => false);
    for r := 0 to |p.rows|
      invariant forall i :: 0 <= i < resolved.Length ==> (resolved[i] <==> CaughtResolves(p, p.rows[..r], i))
    {
      var row := p.rows[r];
      assert p.rows[..r + 1] == p.rows[..r] + [row];
      ghost var was := resolved[..];
      if CaughtLabel(Voc(p), row.containmentObserved) && row.refsPresent && !row.refsErr {
        for k := 0 to |row.refs|
          invariant forall i :: 0 <= i < resolved.Length ==> (resolved[i] <==> was[i] || i in row.refs[..k])
        {
          assert row.refs[..k + 1] == row.refs[..k] + [row.refs[k]];
          var idx := row.refs[k];
          if idx >= 0 && idx < resolved.Length {
            resolved[idx] := true;
          }
        }
        assert row.refs[..|row.refs|] == row.refs;
      }
      forall i | 0 <= i < resolved.Length ensures resolved[i] <==> CaughtResolves(p, p.rows[..r + 1], i) {
        assert was[i] <==> CaughtResolves(p, p.rows[..r], i);
        NextCaught(p, r, i);
      }
    }
    assert p.rows[..|p.rows|] == p.rows;
  }

  lemma NextCaught(p: Predicate, r: nat, i: int)
    requires Readable(p) && r < |p.rows|
    ensures CaughtResolves(p, p.rows[..r + 1], i) <==>
            CaughtResolves(p, p.rows[..r], i) || (CaughtLabel(Voc(p), p.rows[r].containmentObserved) && Resolves(p, p.rows[r], i))
  {
    hide CaughtLabel, Resolves;
    var a, b := p.rows[..r], p.rows[..r + 1];
    assert b == a + [p.rows[r]];
    if CaughtResolves(p, a, i) {
      var k :| 0 <= k < |a| && CaughtLabel(Voc(p), a[k].containmentObserved) && Resolves(p, a[k], i);
      assert b[k] == a[k];
    }
    if CaughtLabel(Voc(p), p.rows[r].containmentObserved) && Resolves(p, p.rows[r], i) {
      assert b[r] == p.rows[r];
    }
  }

  // ----- attribution -----

  /** expectedFor. */
  function ExpectedFor(p: Predicate, attackId: string): seq<string> {
    if p.env.Some? && p.env.value.corpus.Some? && p.env.value.corpus.value.payloads.Payloads?
       && attackId in p.env.value.corpus.value.payloads.entries
    then p.env.value.corpus.value.payloads.entries[attackId]
    else []
  }

  predicate Shares(a: seq<string>, b: seq<string>) {
    exists i :: 0 <= i < |a| && a[i] in b
  }

  /** An interception the row resolves whose commitment array holds no expected value. */
  predicate UnmatchedPin(p: Predicate, i: int, expected: seq<string>)
    requires InRecords(p, i)
  {
    var values := ObjStrings(RecordPayload(p, i), PAYLOAD_COMMITMENT);
    RecordKind(p, i) == KIND_INTERCEPTION && values.Some? && !Shares(values.value, expected)
  }

  predicate PinUnmatched(p: Predicate, row: Row, expected: seq<string>) {
    exists k :: 0 <= k < |row.refs| && InRecords(p, row.refs[k]) && UnmatchedPin(p, row.refs[k], expected)
  }

  /** What a row declaring pinned fails, if anything. */
  function AttributionFault(p: Predicate, row: Row): Option<Code> {
    if row.attribution != Some(ATTRIBUTION_PINNED) then None
    else if !ResolvesKind(p, row, KIND_INTERCEPTION) then Some(AttributionPinnedRecordless)
    else if ExpectedFor(p, row.attackId) == [] then Some(AttributionUnpinnable)
    else if PinUnmatched(p, row, ExpectedFor(p, row.attackId)) then Some(AttributionPinUnmatched)
    else None
  }

  /** The fault of the first row that has one. */
  function AttributionCodes(p: Predicate, rows: seq<Row>): set<Code> {
    if rows == [] then {}
    else
      var fault := AttributionFault(p, rows[0]);
      if fault.Some? then With({}, true, fault.value) else AttributionCodes(p, rows[1..])
  }

  lemma {:induction false} NoAttributionFault(p: Predicate, rows: seq<Row>)
    ensures AttributionCodes(p, rows) == {} <==> forall i :: 0 <= i < |rows| ==> AttributionFault(p, rows[i]).None?
  {
    hide AttributionFault;
    if rows != [] && AttributionFault(p, rows[0]).None? {
      NoAttributionFault(p, rows[1..]);
      forall i | 0 <= i < |rows| && AttributionCodes(p, rows) == {} ensures AttributionFault(p, rows[i]).None? {
        assert i > 0 ==> rows[i] == rows[1..][i - 1];
      }
    }
  }

  /** attributionBindings. */
  method AttributionBindings(p: Predicate, states: seq<RecordState>, kinds: seq<string>) returns (codes: CodeList)
    requires states == States(p.records) && KindsOf(p, kinds)
    ensures CodeSet(codes) == AttributionCodes(p, p.rows)
  {
    hide ResolvesKind, PinUnmatched, ExpectedFor, CodeSet;
    assert CodeSet([]) == {};
    assert p.rows[0..] == p.rows;
    for i := 0 to |p.rows|
      invariant AttributionCodes(p, p.rows) == AttributionCodes(p, p.rows[i..])
    {
      var row := p.rows[i];
      assert p.rows[i..][0] == row && p.rows[i..][1..] == p.rows[i + 1..];
      if row.attribution == Some(ATTRIBUTION_PINNED) {
        var resolves := RowResolves(p, row, kinds, KIND_INTERCEPTION);
        if !resolves {
          codes := AppendCode([], AttributionPinnedRecordless);
          return;
        }
        var expected := ExpectedFor(p, row.attackId);
        if |expected| == 0 {
          codes := AppendCode([], AttributionUnpinnable);
          return;
        }
        var matched := PinMatches(p, row, states, kinds, expected);
        if !matched {
          codes := AppendCode([], AttributionPinUnmatched);
          return;
        }
      }
    }
    codes := [];
  }

  /** pinMatches. */
  method PinMatches(p: Predicate, row: Row, states: seq<RecordState>, kinds: seq<string>, expected: seq<string>)
    returns (ok: bool)
    requires states == States(p.records) && KindsOf(p, kinds)
    ensures ok <==> !PinUnmatched(p, row, expected)
  {
    hide ObjStrings, RecordKind, RecordPayload;
    var want := StringSet(expected);
    for k := 0 to |row.refs|
      invariant forall j :: 0 <= j < k && InRecords(p, row.refs[j]) ==> !UnmatchedPin(p, row.refs[j], expected)
    {
      var idx := row.refs[k];
      if idx >= 0 && idx < |kinds| && kinds[idx] == KIND_INTERCEPTION {
        var obj := ReadObject(p, states, idx);
        var values := ObjStrings(obj, PAYLOAD_COMMITMENT);
        if values.Some? {
          var matched := false;
          for v := 0 to |values.value|
            invariant matched <==> Shares(values.value[..v], expected)
          {
            SharesNext(values.value, v, expected);
            if values.value[v] in want {
              matched := true;
            }
          }
          assert values.value[..|values.value|] == values.value;
          if !matched {
            assert UnmatchedPin(p, row.refs[k], expected);
            return false;
          }
        }
      }
    }
    return true;
  }

  lemma SharesNext(values: seq<string>, v: nat, expected: seq<string>)
    requires v < |values|
    ensures Shares(values[..v + 1], expected) <==> Shares(values[..v], expected) || values[v] in expected
  {
    var a, b := values[..v], values[..v + 1];
    assert b == a + [values[v]];
    if Shares(a, expected) {
      var i :| 0 <= i < |a| && a[i] in expected;
      assert b[i] == a[i];
    }
    assert b[v] == values[v];
  }

  /** payloadObject: re-parse the payload. */
  method ReadObject(p: Predicate, states: seq<RecordState>, i: int) returns (v: Value)
    requires states == States(p.records) && InRecords(p, i)
    ensures v == RecordPayload(p, i)
  {
    hide ParseJson;
    if states[i].payload.None? {
      return Null;
    }
    var r := ParseJsonValue(states[i].payload.value);
    v := if r.Ok? && r.value.Obj? then r.value else Null;
  }

  /** gate1CommitmentsAnyBasis. */
  function AnyBasisCodes(p: Predicate): set<Code>
    requires Readable(p)
  {
    if NoRecords(p) then AttributionCodes(p, p.rows)
    else Join(With(With({}, CleanContradicted(p), CleanRowContradicted), Orphaned(p), InterceptionRecordOrphaned),
              AttributionCodes(p, p.rows))
  }

  method CommitmentsAnyBasis(p: Predicate, states: seq<RecordState>) returns (codes: CodeList)
    requires Readable(p) && states == States(p.records) && (!p.recordsPresent ==> p.records == [])
    ensures CodeSet(codes) == AnyBasisCodes(p)
  {
    hide CodeSet, CleanContradicted, Orphaned, AttributionCodes, RecordKind;
    if !p.recordsPresent || |p.records| == 0 {
      codes := AttributionBindings(p, states, []);
      return;
    }
    var kinds := RecordKinds(p, states);
    codes := CleanRowsContradicted(p, kinds);
    var orphaned := InterceptionsOrphaned(p, kinds);
    codes := AppendCodes(codes, orphaned);
    var attribution := AttributionBindings(p, states, kinds);
    codes := AppendCodes(codes, attribution);
  }
}
