/** Which parts of a statement the gates do not read: two predicates with the same
    environment and the same record payloads are evaluated alike, whatever their
    signatures and however their rows are arranged. */
module Alike {
  import opened Core
  import opened Statements
  import opened Payloads
  import opened Rows
  import opened Commitments
  import opened Seals
  import opened Accepted
  import Merkle
  import Json

  predicate SameEnvelope(a: Record, b: Record) {
    a.payload == b.payload && a.payloadType == b.payloadType
  }

  /** Same environment, same payloads under the same types in the same order. */
  predicate Same(p: Predicate, q: Predicate) {
    && p.env == q.env && |p.records| == |q.records|
    && forall i :: 0 <= i < |p.records| ==> SameEnvelope(p.records[i], q.records[i])
  }

  lemma SameRecord(p: Predicate, q: Predicate, i: int)
    requires Same(p, q) && 0 <= i < |p.records|
    ensures RecordPayload(q, i) == RecordPayload(p, i) && RecordKind(q, i) == RecordKind(p, i)
    ensures RecordMethod(q, i) == RecordMethod(p, i) && StateOf(q.records[i]) == StateOf(p.records[i])
    ensures forall binding :: PayloadCodes(q.records[i], binding) == PayloadCodes(p.records[i], binding)
  {
    hide Json.ParseJson, Json.Canonicalize, Json.BmpNames, ObjString, Merkle.Pae;
    assert SameEnvelope(p.records[i], q.records[i]);
    assert PayloadObject(q.records[i]) == PayloadObject(p.records[i]);
  }

  lemma SameCovers(p: Predicate, q: Predicate, i: int, postures: seq<string>, issuedAt: int)
    requires Same(p, q) && 0 <= i < |p.records|
    ensures Covers(q, i, postures, issuedAt) <==> Covers(p, i, postures, issuedAt)
  {
    hide KindOk, RecordPayload, RecordKind, RecordMethod;
    SameRecord(p, q, i);
  }

  lemma {:induction false} SameFolds(p: Predicate, q: Predicate, refs: seq<int>, binding: string, kind: string)
    requires Same(p, q) && InRange(p, refs)
    ensures InRange(q, refs)
    ensures PayloadFaults(q, refs, binding) == PayloadFaults(p, refs, binding)
    ensures ArmingPostures(q, refs) == ArmingPostures(p, refs)
    ensures FirstOfKind(q, refs, kind) == FirstOfKind(p, refs, kind)
    ensures FirstIdle(q, refs) == FirstIdle(p, refs)
  {
    hide PayloadCodes, RecordPayload, RecordKind, ObjString, FailCode, IdleCode;
    if refs != [] {
      SameFolds(p, q, refs[..|refs| - 1], binding, kind);
      SameRecord(p, q, refs[|refs| - 1]);
    }
  }

  lemma SameMet(p: Predicate, q: Predicate, refs: seq<int>, kind: string, postures: seq<string>, issuedAt: int)
    requires Same(p, q) && InRange(p, refs)
    ensures InRange(q, refs) && (Met(q, refs, kind, postures, issuedAt) <==> Met(p, refs, kind, postures, issuedAt))
  {
    hide RecordKind, Covers;
    forall k | 0 <= k < |refs|
      ensures RecordKind(q, refs[k]) == RecordKind(p, refs[k])
      ensures Covers(q, refs[k], postures, issuedAt) <==> Covers(p, refs[k], postures, issuedAt)
    {
      SameRecord(p, q, refs[k]);
      SameCovers(p, q, refs[k], postures, issuedAt);
    }
  }

  lemma SameClasses(p: Predicate, q: Predicate, row: Row, refs: seq<int>, postures: seq<string>, issuedAt: int)
    requires Same(p, q) && InRange(p, refs) && Readable(p)
    ensures InRange(q, refs) && ClassCodes(q, row, refs, postures, issuedAt) == ClassCodes(p, row, refs, postures, issuedAt)
  {
    hide Met, FirstOfKind, FirstIdle, Requirements;
    var reqs := Requirements(Voc(p), row);
    SameMet(p, q, refs, reqs[0].kind, postures, issuedAt);
    SameFolds(p, q, refs, "", reqs[0].kind);
    if |reqs| == 2 {
      SameMet(p, q, refs, reqs[1].kind, postures, issuedAt);
      SameFolds(p, q, refs, "", reqs[1].kind);
    }
  }

  lemma SameIsCovering(p: Predicate, q: Predicate, row: Row, i: int, postures: seq<string>, issuedAt: int)
    requires Same(p, q) && InRange(p, row.refs) && Readable(p) && Readable(q)
    ensures InRange(q, row.refs) && (IsCovering(q, row, i, postures, issuedAt) <==> IsCovering(p, row, i, postures, issuedAt))
  {
    hide RecordKind, Covers, RequiredKind;
    if i in row.refs {
      SameRecord(p, q, i);
      SameCovers(p, q, i, postures, issuedAt);
    }
  }

  lemma SameCap(p: Predicate, q: Predicate, row: Row, postures: seq<string>, issuedAt: int)
    requires Same(p, q) && InRange(p, row.refs) && Readable(p) && Readable(q)
    ensures InRange(q, row.refs) && (CapExceeded(q, row, postures, issuedAt) <==> CapExceeded(p, row, postures, issuedAt))
  {
    hide IsCovering, RecordMethod;
    forall k | 0 <= k < |row.refs|
      ensures RecordMethod(q, row.refs[k]) == RecordMethod(p, row.refs[k])
      ensures InRange(q, row.refs)
              && (IsCovering(q, row, row.refs[k], postures, issuedAt) <==> IsCovering(p, row, row.refs[k], postures, issuedAt))
    {
      SameRecord(p, q, row.refs[k]);
      SameIsCovering(p, q, row, row.refs[k], postures, issuedAt);
    }
  }

  /** A row raises the same codes and is covered by the same records. */
  lemma SameRowCodes(p: Predicate, q: Predicate, row: Row, ctx: Context)
    requires Same(p, q) && Readable(p) && RefsWellParsed(row)
    ensures Readable(q) && RowCodes(q, row, ctx) == RowCodes(p, row, ctx)
  {
    hide FailsClosed, Unique, PayloadFaults, ArmingPostures, ClassCodes, CapExceeded;
    assert ShapeCode(q, row) == ShapeCode(p, row);
    if ShapeCode(p, row).None? {
      UniqueInRange(p, row);
      UniqueInRange(q, row);
      var u := Unique(row.refs);
      SameFolds(p, q, u, ctx.binding, "");
      SameClasses(p, q, row, u, ArmingPostures(p, u), ctx.issuedAt);
      SameCap(p, q, row, ArmingPostures(p, u), ctx.issuedAt);
    }
  }

  lemma SameCovering(p: Predicate, q: Predicate, row: Row, ctx: Context, i: int)
    requires Same(p, q) && Readable(p)
    ensures Readable(q) && (Covering(q, row, ctx, i) <==> Covering(p, row, ctx, i))
  {
    hide Unique, ArmingPostures, IsCovering;
    if InRange(p, row.refs) {
      UniqueKeepsRange(p, row.refs);
      SameFolds(p, q, Unique(row.refs), "", "");
      SameIsCovering(p, q, row, i, ArmingPostures(p, Unique(row.refs)), ctx.issuedAt);
    }
  }

  lemma SameResolves(p: Predicate, q: Predicate, row: Row, kind: string)
    requires Same(p, q)
    ensures ResolvesKind(q, row, kind) <==> ResolvesKind(p, row, kind)
  {
    hide RecordKind;
    forall k | 0 <= k < |row.refs| && InRecords(p, row.refs[k])
      ensures RecordKind(q, row.refs[k]) == RecordKind(p, row.refs[k])
    {
      SameRecord(p, q, row.refs[k]);
    }
  }

  lemma SameAttribution(p: Predicate, q: Predicate, row: Row)
    requires Same(p, q)
    ensures AttributionFault(q, row) == AttributionFault(p, row)
  {
    hide ResolvesKind, RecordKind, RecordPayload, Shares, ObjStrings;
    SameResolves(p, q, row, KIND_INTERCEPTION);
    assert ExpectedFor(q, row.attackId) == ExpectedFor(p, row.attackId);
    var expected := ExpectedFor(p, row.attackId);
    forall k | 0 <= k < |row.refs| && InRecords(p, row.refs[k])
      ensures UnmatchedPin(q, row.refs[k], expected) == UnmatchedPin(p, row.refs[k], expected)
    {
      SameRecord(p, q, row.refs[k]);
    }
  }

  lemma {:induction false} SameObserved(p: Predicate, q: Predicate, n: nat)
    requires Same(p, q) && n <= |p.records|
    ensures Observed(q, n) == Observed(p, n)
  {
    hide RecordKind, ObservedKind, LeafHex, Same;
    if n > 0 {
      SameObserved(p, q, n - 1);
      SameLeaf(p, q, n - 1);
    }
  }

  lemma SameLeaf(p: Predicate, q: Predicate, i: int)
    requires Same(p, q) && 0 <= i < |p.records|
    ensures RecordKind(q, i) == RecordKind(p, i) && LeafHex(q.records[i]) == LeafHex(p.records[i])
  {
    hide RecordKind, StateOf;
    SameRecord(p, q, i);
  }

  lemma SameSeals(p: Predicate, q: Predicate, i: int, ctx: Context)
    requires Same(p, q) && InRecords(p, i)
    ensures WrongSet(q, i, ctx.binding) <==> WrongSet(p, i, ctx.binding)
    ensures GoodSeal(q, i, ctx) <==> GoodSeal(p, i, ctx)
    ensures Defective(q, i, ctx) <==> Defective(p, i, ctx)
    ensures FailCode(RecordPayload(q, i), RecordKind(q, i)) == FailCode(RecordPayload(p, i), RecordKind(p, i))
  {
    hide RecordKind, RecordPayload, Covers, ObjString, PayloadCodes, IsLowerHex64, Observed, SHA256Hex, FailCode, IsCoveringKind;
    SameRecord(p, q, i);
    SameCovers(p, q, i, [], ctx.issuedAt);
    SameObserved(p, q, |p.records|);
  }
}
