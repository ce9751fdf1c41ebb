/** The failure codes of aee/codes.go and the lists they are collected in. */
module Codes {

  datatype Code =
    // GATE 0
    | StatementMalformed
    | StatementTypeUnsupported
    | PredicateTypeUnsupported
    | MemberSpelling
    | ResultVocabulary
    | EnvironmentIncomplete
    | PostureVocabulary
    | VocabularyMissing
    | VocabularyNotCanonical
    | VocabularyCaughtNotSubset
    | VocabularyDigestMismatch
    | CorpusDigestMismatch
    | ManifestDuplicateAttack
    | CorpusManifestNoAttacks
    | ManifestExpectedPayloadsMalformed
    | CoverageMissing
    | CoverageIncomplete
    | RowAttackUnknown
    | MissingActualLayer
    | CleanRowLayerNotNone
    | SubjectCardinality
    | SubjectSha256Missing
    | DigestNotCanonical
    | RunEntropyMissing
    | IssuedAtMissing
    | IssuedAtMalformed
    // GATE 1, the record set
    | BatchRootMissing
    | BatchRootMismatch
    | BatchRootOrphaned
    | DuplicateRecord
    | RecordsAbsent
    | RecordUndecodable
    | RecordSignaturesEmpty
    // GATE 1, a row
    | RefsEmpty
    | RefMalformed
    | RefOutOfRange
    | FailClosedSubstrateRow
    | PayloadNotIJson
    | PayloadNotCanonical
    | PayloadMediaType
    | PayloadMissingReserved
    | RunBindingMismatch
    | MethodCapExceeded
    | CaughtRowUncovered
    | ReconstructedRowUncovered
    | CleanRowUncovered
    | ArmingCoversNothing
    | SealedCoversNothing
    | ExaminationCoversNothing
    | RecordKindUnknownCoversNothing
    | MoatDropCoversNothing
    | UncommittedObservationCoversNothing
    | PayloadCommitmentMalformed
    // GATE 1, the statement
    | CleanRowContradicted
    | InterceptionRecordOrphaned
    | SealedRecordAbsent
    | ObservedSetMismatch
    | ObservedAttackUncaught
    | AssessedSetExceedsDeclaration
    | AttributionPinnedRecordless
    | AttributionUnpinnable
    | AttributionPinUnmatched
    // recompute equality
    | ResultRecomputeMismatch

  predicate NoDuplicates(codes: seq<Code>) {
    forall i, j :: 0 <= i < j < |codes| ==> codes[i] != codes[j]
  }

  /** Codes in detection order, each once. */
  type CodeList = codes: seq<Code> | NoDuplicates(codes)

  function CodeSet(codes: seq<Code>): (s: set<Code>)
    ensures s == {} <==> codes == []
  {
    var s := set c | c in codes;
    assert codes != [] ==> codes[0] in s;
    s
  }

  /** appendCode. */
  method AppendCode(codes: CodeList, c: Code) returns (r: CodeList)
    ensures CodeSet(r) == CodeSet(codes) + {c}
    ensures codes <= r
  {
    for i := 0 to |codes|
      invariant c !in codes[..i]
    {
      if codes[i] == c {
        return codes;
      }
    }
    assert codes[..|codes|] == codes;
    return codes + [c];
  }

  /** appendCodes. */
  method AppendCodes(codes: CodeList, more: CodeList) returns (r: CodeList)
    ensures CodeSet(r) == CodeSet(codes) + CodeSet(more)
    ensures codes <= r
  {
    r := codes;
    for i := 0 to |more|
      invariant codes <= r
      invariant CodeSet(r) == CodeSet(codes) + CodeSet(more[..i])
    {
      assert more[..i + 1] == more[..i] + [more[i]];
      r := AppendCode(r, more[i]);
    }
    assert more[..|more|] == more;
  }

  /** A set of codes, one more if the condition holds. */
  function With(s: set<Code>, cond: bool, c: Code): (r: set<Code>)
    ensures r == {} <==> s == {} && !cond
  {
    if cond then
      assert c in s + {c};
      s + {c}
    else s
  }

  function Join(a: set<Code>, b: set<Code>): (r: set<Code>)
    ensures r == {} <==> a == {} && b == {}
  {
    assert a <= a + b && b <= a + b;
    a + b
  }
}
