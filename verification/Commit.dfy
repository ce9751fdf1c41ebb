/** What an accepted statement commits to: its batchRoot to the record sequence, a seal
    of its run to the observed set and to the seven binding inputs. SHA-256 is not
    assumed injective: each lemma gives the equality or a collision. */
module Commit {
  import opened Core
  import opened Order
  import opened Sorting
  import opened Scan
  import opened Json
  import opened Codec
  import opened Statements
  import opened Gate0
  import opened Payloads
  import opened Rows
  import opened RecordSet
  import opened Commitments
  import opened Seals
  import opened Gate1
  import opened Accepted
  import opened Soundness
  import opened Alike
  import Canonical
  import Binding
  import Recompute
  import Merkle

  // ----- the record sequence -----

  /** The same (payloadType, payload) at every position. */
  predicate SameSequence(a: seq<Record>, b: seq<Record>) {
    |a| == |b| && forall i :: 0 <= i < |a| ==> SameEnvelope(a[i], b[i])
  }

  lemma EnvelopeFromPae(a: Record, b: Record)
    requires a.payload.Some? && b.payload.Some? && StateOf(a).pae == StateOf(b).pae
    ensures SameEnvelope(a, b)
  {
    hide Merkle.Pae;
    Merkle.PaeInjective(a.payloadType, a.payload.value, b.payloadType, b.payload.value);
  }

  /** Record commitment: two accepted statements with the same batchRoot carry the same
      records in the same order, for any two record counts, or the two root computations
      hashed a collision. */
  lemma RecordsCommitted(s: Statement, t: Statement)
    requires Accepts(s) && Accepts(t)
    requires s.predicate_.batchRootPresent && t.predicate_.batchRootPresent
    requires s.predicate_.batchRoot == t.predicate_.batchRoot
    ensures s.predicate_.records != [] && t.predicate_.records != []
    ensures SameSequence(s.predicate_.records, t.predicate_.records)
            || Merkle.Collision(Merkle.Inputs(Paes(s.predicate_.records)), Merkle.Inputs(Paes(t.predicate_.records)))
  {
    hide Accepts, Gate0Ok, AnyBasisOk, Merkle.Root, Merkle.Inputs, Core.Hex, StateOf, SomeUnsigned, SomeDuplicate, Merkle.Collision, Merkle.Leaves,
      GateReady, Recompute.Recomputed, SubstrateOk, HasSubstrateRows, ContextOf, SameEnvelope;
    var a, b := s.predicate_.records, t.predicate_.records;
    AcceptedParts(s);
    AcceptedParts(t);
    Core.HexInjective(Merkle.Root(Merkle.Leaves(Paes(a))), Merkle.Root(Merkle.Leaves(Paes(b))));
    Merkle.RootCommits(Paes(a), Paes(b));
    if Paes(a) == Paes(b) {
      forall i | 0 <= i < |a| ensures SameEnvelope(a[i], b[i]) {
        assert Paes(a)[i] == Paes(b)[i];
        EnvelopeFromPae(a[i], b[i]);
      }
    }
  }

  // ----- the observed set -----

  ghost predicate SameObservations(p: Predicate, q: Predicate) {
    forall leaf: string :: IsObserved(p, leaf) <==> IsObserved(q, leaf)
  }

  /** The array a seal digests. */
  function ObservedText(p: Predicate): bytes {
    StringArrayText(Sort(Observed(p, |p.records|), Self))
  }

  lemma ObservedSorted(p: Predicate)
    ensures StrictlyAscending(Sort(Observed(p, |p.records|), Self))
    ensures forall leaf :: leaf in Sort(Observed(p, |p.records|), Self) <==> IsObserved(p, leaf)
    ensures forall i :: 0 <= i < |Sort(Observed(p, |p.records|), Self)| ==> HexString(Sort(Observed(p, |p.records|), Self)[i])
  {
    hide RecordKind, ObservedKind, LeafHex, SortBy, Utf16Less, HexString;
    var ls := Observed(p, |p.records|);
    ObservedMembers(p, |p.records|);
    assert Keys(ls, Self) == ls && Keys(Sort(ls, Self), Self) == Sort(ls, Self);
    SortStrict(ls, Self);
    SortPermutes(ls, Self);
    forall i | 0 <= i < |Sort(ls, Self)| ensures HexString(Sort(ls, Self)[i]) {
      assert Sort(ls, Self)[i] in ls;
      var j :| 0 <= j < |ls| && ls[j] == Sort(ls, Self)[i];
    }
  }

  /** The digest depends on nothing but the set of observed leaves. */
  lemma ObservedSetIsASet(p: Predicate, q: Predicate)
    requires SameObservations(p, q)
    ensures ObservedText(p) == ObservedText(q) && ObservedSetDigest(p) == ObservedSetDigest(q)
  {
    hide Observed, Sort, SHA256Hex, StringArrayText, IsObserved, HexString;
    ObservedSorted(p);
    ObservedSorted(q);
    var a, b := Sort(Observed(p, |p.records|), Self), Sort(Observed(q, |q.records|), Self);
    forall x ensures x in a <==> x in b {
      assert IsObserved(p, x) <==> IsObserved(q, x);
    }
    AscendingUnique(a, b);
  }

  lemma {:induction false} HexClean(s: string)
    requires HexString(s)
    ensures Clean(s)
  {
  }

  /** Arrays of hexadecimal strings are written differently when they differ. */
  lemma ArraysDelimited(a: seq<string>, b: seq<string>)
    requires forall i :: 0 <= i < |a| ==> HexString(a[i])
    requires forall i :: 0 <= i < |b| ==> HexString(b[i])
    requires StringArrayText(a) == StringArrayText(b)
    ensures a == b
  {
    hide StringArrayText, Canon, HexString, Clean;
    var v, w := Arr(Map(a, StrOf)), Arr(Map(b, StrOf));
    StringArrayIsCanonical(a);
    StringArrayIsCanonical(b);
    forall i | 0 <= i < |a| ensures WellFormed(v.items[i]) {
      HexClean(a[i]);
    }
    forall i | 0 <= i < |b| ensures WellFormed(w.items[i]) {
      HexClean(b[i]);
    }
    Canonical.CanonEqualIffSame(v, w);
    assert |v.items| == |w.items|;
    forall i | 0 <= i < |a| ensures a[i] == b[i] {
      assert Canonical.SameValue(v.items[i], w.items[i]);
      assert v.items[i] == Str(a[i]) && w.items[i] == Str(b[i]);
    }
  }

  /** Equal digests: the same observed leaves, or a collision of the two arrays. */
  lemma ObservedSetCommits(p: Predicate, q: Predicate)
    requires ObservedSetDigest(p) == ObservedSetDigest(q)
    ensures SameObservations(p, q) || Collides(ObservedText(p), ObservedText(q))
  {
    hide Observed, Sort, SHA256Hex, StringArrayText, IsObserved, HexString;
    SHA256HexBinds(ObservedText(p), ObservedText(q));
    if ObservedText(p) == ObservedText(q) {
      ObservedSorted(p);
      ObservedSorted(q);
      ArraysDelimited(Sort(Observed(p, |p.records|), Self), Sort(Observed(q, |q.records|), Self));
    }
  }

  /** One leaf: one record, or a collision of the two leaf inputs. */
  lemma LeafCommits(a: Record, b: Record)
    requires a.payload.Some? && b.payload.Some? && LeafHex(a) == LeafHex(b)
    ensures SameEnvelope(a, b) || Collides(Merkle.LeafInput(StateOf(a).pae), Merkle.LeafInput(StateOf(b).pae))
  {
    hide Merkle.Pae, StateOf;
    HexInjective(Leaf(a), Leaf(b));
    var x, y := Merkle.LeafInput(StateOf(a).pae), Merkle.LeafInput(StateOf(b).pae);
    if x == y {
      assert x[1..] == StateOf(a).pae && y[1..] == StateOf(b).pae;
      EnvelopeFromPae(a, b);
    }
  }

  lemma KindMeansDecoded(p: Predicate, i: int)
    requires InRecords(p, i) && ObservedKind(RecordKind(p, i))
    ensures p.records[i].payload.Some?
  {
    if PayloadObject(p.records[i]).None? {
      NoMembers(Null, KIND);
    }
  }

  /** The observed record has a partner in q, or its leaf collides with one. */
  predicate Carried(p: Predicate, i: int, q: Predicate)
    requires InRecords(p, i)
  {
    exists j :: 0 <= j < |q.records| && ObservedKind(RecordKind(q, j))
      && (SameEnvelope(p.records[i], q.records[j])
          || Collides(Merkle.LeafInput(StateOf(p.records[i]).pae), Merkle.LeafInput(StateOf(q.records[j]).pae)))
  }

  predicate AllCarried(p: Predicate, q: Predicate) {
    forall k :: 0 <= k < |p.records| && ObservedKind(RecordKind(p, k)) ==> Carried(p, k, q)
  }

  lemma SameObservationsCarried(p: Predicate, q: Predicate, i: int)
    requires SameObservations(p, q) && InRecords(p, i) && ObservedKind(RecordKind(p, i))
    ensures Carried(p, i, q)
  {
    hide RecordKind, ObservedKind, LeafHex, StateOf, SameEnvelope;
    var leaf := LeafHex(p.records[i]);
    assert IsObserved(p, leaf) && IsObserved(q, leaf);
    var j :| 0 <= j < |q.records| && ObservedKind(RecordKind(q, j)) && LeafHex(q.records[j]) == leaf;
    KindMeansDecoded(p, i);
    KindMeansDecoded(q, j);
    LeafCommits(p.records[i], q.records[j]);
  }

  // ----- a shared seal -----

  lemma HexStrings(d: string)
    requires IsLowerHex64(d) || d == ""
    ensures HexString(d)
  {
  }

  lemma InputsAreHex(s: Statement)
    requires Accepts(s) && HasSubstrateRows(s.predicate_)
    ensures Binding.HexInputs(BindingInputs(s))
  {
    hide HexString, IsLowerHex64, PosturePreimage, RowsAsExpected, Partition, GateReady, AnyBasisOk, RecordSetOk, Recompute.Recomputed,
      SubstrateOk, Accepts, LayersOk, CorpusOk, CanonicalVocabulary, StrictlyAscending, AllBmp, Subset, SHA256Hex, RefSha256;
    AcceptedParts(s);
    var e := s.predicate_.env.value;
    assert BindingInputsOk(s) && EnvironmentOk(e);
    HexStrings(RefSha256(e.catchPolicy));
    HexStrings(CorpusSha256(e.corpus));
    HexStrings(PosturePreimage(e));
    HexStrings(Sha256Member(e.vocabulary.value.digest));
    HexStrings(RefSha256(e.runEntropy));
    HexStrings(SubjectSha256(s));
    HexStrings(RefSha256(e.substrate));
  }

  /** A seal of the statement's run whose aeeObservedSet is well formed. */
  predicate SealOf(s: Statement, i: int)
    requires InRecords(s.predicate_, i)
  {
    var got := ObjString(RecordPayload(s.predicate_, i), OBSERVED_SET);
    Claims(s.predicate_, i, KIND_SEALED, StatementBinding(s)) && got.Some? && IsLowerHex64(got.value)
  }

  lemma SealMatches(s: Statement, i: int)
    requires Accepts(s) && HasSubstrateRows(s.predicate_) && InRecords(s.predicate_, i)
    requires SealOf(s, i)
    ensures ObjString(RecordPayload(s.predicate_, i), OBSERVED_SET) == Some(ObservedSetDigest(s.predicate_))
  {
    hide Accepts, Gate0Ok, AnyBasisOk, RecordSetOk, RecordPayload, ObjString, Claims, ObservedSetDigest, StatementBinding, SealPresent,
      Defective, SealNamesUncaught, AssessedExceeds, HasSubstrateRows, Readable, RefsWellParsed, Recompute.Recomputed, IsLowerHex64;
    AcceptedParts(s);
    assert !WrongSet(s.predicate_, i, ContextOf(s).binding);
  }

  /** Observation commitment: two accepted substrate-carrying statements that share the
      payload of a seal of their runs carry the same observed leaves, and derive from the
      same seven binding inputs, or a collision is exhibited. */
  lemma SharedSealCommits(s: Statement, t: Statement, i: int, j: int)
    requires Accepts(s) && HasSubstrateRows(s.predicate_) && InRecords(s.predicate_, i)
    requires Accepts(t) && HasSubstrateRows(t.predicate_) && InRecords(t.predicate_, j)
    requires s.predicate_.records[i].payload == t.predicate_.records[j].payload
    requires SealOf(s, i) && SealOf(t, j)
    ensures BindingInputs(s) == BindingInputs(t)
            || Collides(Binding.Preimage(BindingInputs(s)), Binding.Preimage(BindingInputs(t)))
    ensures SameObservations(s.predicate_, t.predicate_) || Collides(ObservedText(s.predicate_), ObservedText(t.predicate_))
    ensures SameObservations(s.predicate_, t.predicate_) ==> AllCarried(s.predicate_, t.predicate_)
  {
    hide Accepts, ObjString, BindingInputs, Binding.Preimage, HasSubstrateRows, ObservedSetDigest, ObservedText, SameObservations,
      RecordKind, Carried, ParseJson, Binding.HexInputs, ObservedKind, IsLowerHex64;
    var p, q := s.predicate_, t.predicate_;
    assert RecordPayload(p, i) == RecordPayload(q, j);
    SealMatches(s, i);
    SealMatches(t, j);
    ObservedSetCommits(p, q);
    InputsAreHex(s);
    InputsAreHex(t);
    Binding.BindingCommits(BindingInputs(s), BindingInputs(t));
    if SameObservations(p, q) {
      forall k | 0 <= k < |p.records| && ObservedKind(RecordKind(p, k)) ensures Carried(p, k, q) {
        SameObservationsCarried(p, q, k);
      }
    }
  }
}
