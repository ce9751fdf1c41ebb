/** The checks of GATE 1 on the record set as a whole (checkRecordsStatementLevel in
    aee/validity.go). */
module RecordSet {
  import opened Core
  import opened Codes
  import opened Statements
  import opened Payloads
  import Merkle

  function Leaf(r: Record): Digest {
    Merkle.LeafHash(StateOf(r).pae)
  }

  function Paes(rs: seq<Record>): (paes: seq<bytes>)
    ensures |paes| == |rs| && forall i :: 0 <= i < |rs| ==> paes[i] == StateOf(rs[i]).pae
  {
    seq(|rs|, i requires 0 <= i < |rs| => StateOf(rs[i]).pae)
  }

  function RootHex(rs: seq<Record>): string
    requires rs != []
  {
    Hex(Merkle.Root(Merkle.Leaves(Paes(rs))))
  }

  predicate SomeUnsigned(rs: seq<Record>) {
    exists i :: 0 <= i < |rs| && rs[i].signatures == []
  }

  predicate SomeUndecodable(rs: seq<Record>) {
    exists i :: 0 <= i < |rs| && rs[i].payload.None?
  }

  /** Two decoded records share a leaf; undecoded ones are no duplicates of each
      other. */
  predicate SomeDuplicate(rs: seq<Record>) {
    exists i, j :: 0 <= i < j < |rs| && rs[i].payload.Some? && rs[j].payload.Some? && Leaf(rs[i]) == Leaf(rs[j])
  }

  predicate NoRecords(p: Predicate) {
    !p.recordsPresent || p.records == []
  }

  /** The root is recomputed only over a fully decoded set. */
  function RootCodes(p: Predicate, acc: set<Code>): set<Code>
    requires p.records != []
  {
    With(With(acc, !p.batchRootPresent, BatchRootMissing),
      p.batchRootPresent && p.batchRoot != RootHex(p.records), BatchRootMismatch)
  }

  function RecordSetCodes(p: Predicate): set<Code> {
    if NoRecords(p) then With({}, p.batchRootPresent, BatchRootOrphaned)
    else
      var rs := p.records;
      var a := With(With(With({}, SomeUnsigned(rs), RecordSignaturesEmpty), SomeUndecodable(rs), RecordUndecodable),
        SomeDuplicate(rs), DuplicateRecord);
      if SomeUndecodable(rs) then a else RootCodes(p, a)
  }

  const ZERO_LEAF: Digest := seq(32, _ => 0)

  /** checkRecordsStatementLevel. */
  method CheckRecordSet(p: Predicate) returns (states: seq<RecordState>, codes: CodeList)
    ensures states == States(p.records)
    ensures CodeSet(codes) == RecordSetCodes(p)
  {
    hide CodeSet, States, SomeDuplicate, RootHex;
    codes := [];
    states := States(p.records);
    assert CodeSet([]) == {};
    if !p.recordsPresent || |p.records| == 0 {
      if p.batchRootPresent {
        codes := AppendCode(codes, BatchRootOrphaned);
      }
      return;
    }
    var unsigned := AnyRecordSignaturesEmpty(p);
    if unsigned {
      codes := AppendCode(codes, RecordSignaturesEmpty);
    }
    var leaves, decodeFailed;
    states, leaves, decodeFailed, codes := DecodeRecords(p, codes);
    var duplicate := HasDuplicate(p.records, states, leaves);
    if duplicate {
      codes := AppendCode(codes, DuplicateRecord);
    }
    if !decodeFailed {
      LeavesDecoded(p.records, leaves);
      var root := Merkle.Root(leaves);
      if !p.batchRootPresent {
        codes := AppendCode(codes, BatchRootMissing);
      } else if p.batchRoot != Hex(root) {
        codes := AppendCode(codes, BatchRootMismatch);
      }
    }
  }

  method AnyRecordSignaturesEmpty(p: Predicate) returns (r: bool)
    ensures r == SomeUnsigned(p.records)
  {
    for i := 0 to |p.records|
      invariant forall k :: 0 <= k < i ==> p.records[k].signatures != []
    {
      if |p.records[i].signatures| == 0 {
        return true;
      }
    }
    return false;
  }

  /** The leaf of a decoded record; the zero value elsewhere. */
  predicate LeafFilled(r: Record, leaf: Digest) {
    r.payload.Some? ==> leaf == Leaf(r)
  }

  /** The decode loop. */
  method DecodeRecords(p: Predicate, before: CodeList)
    returns (states: seq<RecordState>, leaves: seq<Digest>, failed: bool, codes: CodeList)
    ensures states == States(p.records)
    ensures |leaves| == |p.records| && forall i :: 0 <= i < |leaves| ==> LeafFilled(p.records[i], leaves[i])
    ensures failed == SomeUndecodable(p.records)
    ensures CodeSet(codes) == With(CodeSet(before), SomeUndecodable(p.records), RecordUndecodable)
  {
    hide CodeSet, Leaf, Merkle.Pae;
    states, leaves, failed, codes := [], [], false, before;
    for i := 0 to |p.records|
      invariant |states| == |leaves| == i
      invariant forall k :: 0 <= k < i ==> states[k] == StateOf(p.records[k])
      invariant forall k :: 0 <= k < i ==> LeafFilled(p.records[k], leaves[k])
      invariant failed <==> exists k :: 0 <= k < i && p.records[k].payload.None?
      invariant CodeSet(codes) == With(CodeSet(before), failed, RecordUndecodable)
    {
      var r := p.records[i];
      if r.payload.None? {
        states, leaves, failed := states + [RecordState(None, [])], leaves + [ZERO_LEAF], true;
        codes := AppendCode(codes, RecordUndecodable);
      } else {
        var pae := Merkle.Pae(r.payloadType, r.payload.value);
        states, leaves := states + [RecordState(r.payload, pae)], leaves + [Merkle.LeafHash(pae)];
        LeafOf(r, pae);
      }
    }
  }

  lemma LeafOf(r: Record, pae: bytes)
    requires r.payload.Some? && pae == Merkle.Pae(r.payloadType, r.payload.value)
    ensures Merkle.LeafHash(pae) == Leaf(r)
  {
  }

  /** The duplicate scan, over the records that decoded. */
  method HasDuplicate(rs: seq<Record>, states: seq<RecordState>, leaves: seq<Digest>) returns (r: bool)
    requires states == States(rs) && |leaves| == |rs| && forall i :: 0 <= i < |leaves| ==> LeafFilled(rs[i], leaves[i])
    ensures r == SomeDuplicate(rs)
  {
    hide Leaf, Merkle.Pae;
    var seen: set<Digest> := {};
    for i := 0 to |rs|
      invariant forall d :: d in seen <==> exists k :: 0 <= k < i && rs[k].payload.Some? && leaves[k] == d
      invariant forall j, k :: 0 <= j < k < i && rs[j].payload.Some? && rs[k].payload.Some? ==> Leaf(rs[j]) != Leaf(rs[k])
    {
      if states[i].payload.Some? {
        assert LeafFilled(rs[i], leaves[i]);
        if leaves[i] in seen {
          var k :| 0 <= k < i && rs[k].payload.Some? && leaves[k] == leaves[i];
          assert LeafFilled(rs[k], leaves[k]);
          return true;
        }
        forall k | 0 <= k < i && rs[k].payload.Some? ensures Leaf(rs[k]) != Leaf(rs[i]) {
          assert LeafFilled(rs[k], leaves[k]);
          assert leaves[k] in seen;
        }
        seen := seen + {leaves[i]};
      }
    }
    return false;
  }

  lemma LeavesDecoded(rs: seq<Record>, leaves: seq<Digest>)
    requires rs != [] && |leaves| == |rs| && forall i :: 0 <= i < |leaves| ==> LeafFilled(rs[i], leaves[i])
    requires !SomeUndecodable(rs)
    ensures Hex(Merkle.Root(leaves)) == RootHex(rs)
  {
    hide Merkle.Root, Merkle.Pae;
    forall i | 0 <= i < |rs| ensures leaves[i] == Merkle.Leaves(Paes(rs))[i] {
      assert LeafFilled(rs[i], leaves[i]);
    }
    assert leaves == Merkle.Leaves(Paes(rs));
  }
}
