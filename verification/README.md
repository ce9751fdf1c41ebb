# Verification of the aee core

A Dafny model of the verification core for adversarial-execution-evidence statements
(`aee/`), of the parts of the Python rail that must agree with it
(`packaging/run_vectors.py`), and of three smaller routines of the same repository: the
CPython-compatible encoder, the ACI level checker and the ISO 7064 check digit. The core
decides, in four steps, whether a statement may be consumed: GATE 0 (well-formedness),
GATE 1 (coverage validity), equality of the carried result with a pure recompute, and a
key-relative tier.

`dafny verify dfyconfig.toml` checks the whole project.

## How it is built

**Bytes.** `Core`, `Utf8`, `Order`, `Sorting`, `Scan`, `Numbers` and `Json` define the JSON
text level: escapes and surrogates, the three string orders, the safe-integer profile, the
strict parser and the RFC 8785 writer. `RoundTrip`, `Parsed` and `Canonical` prove that
parser and writer undo each other. `Codec` is the same parser and writer as they run: a
decoder object that consumes its input and a buffer that grows. `NestingDepth`, `Merkle`,
`Binding` and `PyJson` add the depth computations, the DSSE encoding with the RFC 6962
tree, the run binding and the Python encoder. `Grammar` reads documents by their grammar
alone and turns the strict pass into a walk over what was read, `Literals` says what its
string scan decides. `Syntax`, `Documents`, `Spellings`, `Decimals`, `CanonicalForm` and
`Dsse` tell the same formats once more over literal bytes, independently of parser and
writer: which texts there are, which are accepted, which are canonical.

**Gates.** `Statements` holds the parsed statement and the parse that fills it, `Ingest` the
strict pass in front of it. `CorpusManifest`, `Gate0`, `Payloads`, `Rows`, `RecordSet`,
`Commitments`, `Seals`, `Gate1`, `Recompute` and `Evaluate` are the gates as the source
runs them, loops and early returns included. Each method's contract is the exact *set* of
codes it leaves, every code under the condition that calls for it; `Codes.With` adds a code
to a set if a condition holds. `Accepted` turns the empty set into plain conditions, in both
directions. `ParseRules`, `GateRules`, `CoverageRules`, `StatementRules` and `AcceptedRows`
state the rules without the gates' own predicates: over the members of the statement and of
the payloads, in literals.

**Theorems.** `Soundness` (pass soundness, statements that do not fail, agreement of the two
evaluations of a kind, tiers), `Commit` (record and observation commitment), `Reorder`,
`Alike` and `NonInterference` (what does not reach validity), `Builder`, `Witnesses` and
`ArtifactWitnesses` (the producer's statements are accepted, one for each result, so none of
this is vacuous).

**Beside the package.** `Ed25519`, `EdwardsCurve` and `PointCoding` over `Residues`, `Aci` and
`AciRules`, `CheckDigit`.

## What is taken as given

- SHA-256, SHA-512, Ed25519 verification inside the tier, RFC 3339 parsing and, for ACI, JSON
  decoding are uninterpreted constants (`Core.SHA256`, `Ed25519.SHA512`,
  `Evaluate.ED25519_VERIFY`, `Statements.PARSE_TIMESTAMP`, `Aci.DECODE_OBJECT`). No hash is
  assumed injective: a commitment lemma concludes equality or a collision between named
  inputs.
- What `encoding/json` and strict base64 return is the input of the parse
  (`Statements.Outcome`, `Record.payload`).
- `Ed25519` proves commutativity, neutrality, XY = ZT, transitivity of `_pt_eq` and its
  compatibility with addition from the formulas, `EdwardsCurve` proves that the curve is
  closed under addition and that no sum has Z = 0, and `PointCoding` that point decoding and
  point encoding undo each other. What is assumed about numbers is `PointCoding.PrimeFacts`:
  p has no zero divisors, d is no square, -1 is the square of `_I` modulo p, and Fermat's
  little theorem holds for p; and, for the base point, that 4/5 is the y of a point. What is
  assumed about the group is associativity and L*B = identity.

## Where code and description differ

- `aee/types.go:363-393` describes the strict pass as keeping every statement whose bytes do
  not decode faithfully from the gates. Errors of the number profile are not promoted, the
  decode stops at the first of its errors, and strings are scanned only after the whole
  decode. So a fraction or unsafe number that no repeated member and no excess nesting
  precedes hides every string fault, also one in front of it, and every repeated member and
  excess nesting after it.
  `Ingest.ProfileFaultExactly` gives the exact condition for every syntactically valid
  document, `Ingest.NumberHidesSurrogate` and `Ingest.NumberHidesRepeat` give statements
  that are let through.
- `scripts/citation-metadata-gate.py:104-110` says that the check-digit routine returns false
  on malformed input rather than raising. `str.isdigit()` takes characters that `int()` does
  not; `CheckDigit.OrcidCheckDigitOk` says on which identifiers it raises,
  `CheckDigit.RaisesOnSuperscript` gives one.
- `aee/types.go:632-633` calls for a JSON integer as an observationRefs entry. The decoder
  also takes a string that spells one, because `json.Number` does.
  `Statements.RefIndexExactly` says which entries are accepted,
  `Statements.RefIndexMeetsDescription` which of them meet the description, and
  `Statements.QuotedIndexAccepted` gives one that does not.
- The depth that `corpora/agentaction.go:289-310` measures is taken on a decoded map, in which
  a repeated member has been overwritten: `NestingDepth.JsonDepthExactly` says when it
  exceeds a bound, `NestingDepth.JsonDepthMisses` gives a document on which it misses a
  level.

## Model

| member | source | states |
|---|---|---|
| Soundness.PassSound | aee/statement.go:249-398 | an accepted statement with result pass declares at least one attack, carries exactly one row for each declared attack and no other, every row is clean, substrate and intercepted with a bound, valid, covering arming record and sealed record, and every well-formed attack array of an arming record of the run is exactly the manifest's attack set |
| Soundness.PassRows | aee/recompute.go:86-109 | each row of a passing statement is clean, substrate, intercepted, and covered by an arming and a sealed record it resolves |
| Soundness.ArmingArray | aee/commitments.go:438-468 | once all classes are assessed, subset by the declaration rule and superset by the shape rule pin the array to the manifest |
| Soundness.AllAssessed | aee/statement.go:332-398 | with nothing out of scope and nothing routed elsewhere, the partition rule makes every declared attack an expected one |
| Soundness.NotFailNoInterception | aee/commitments.go:145-175 | if the result is not fail, no carried record is an interception and no row declares pinned |
| Soundness.NotFailSealsEmpty | aee/commitments.go:397-427 | nor does any seal of this run with a well-formed attack array name an attack |
| Soundness.EvaluationsAgree | aee/commitments.go:313-354 | every record a substrate row resolves is bound, and if its kind can cover it is valid under the row's posture claims and under none: the row-level and the statement-level call of one predicate never disagree |
| Soundness.CoveringExactly | aee/validity.go:641-729 | so the covering set of a row is exactly its referenced records of the required kinds |
| Soundness.CoveringNotEmpty | aee/validity.go:680-708 | for each required kind the row resolves a bound, valid record of that kind that covers it |
| Soundness.TiersAgree | aee/tier.go:118-144 | for every key list, the empty one included, the producer check succeeds exactly when the tiers derived under those keys satisfy the tier policy |
| Accepted.Gate0Exactly | aee/statement.go:47-165 | GATE 0 raises no code exactly on the statements that meet its conditions, all written out |
| Accepted.Gate1Exactly | aee/validity.go:78-142 | GATE 1 raises no code exactly on the statements that meet its conditions, all written out |
| Accepted.RowExactly | aee/validity.go:592-729 | a row raises no code exactly when it is classified, resolves only bound records, meets every required kind, and claims no method above its covering records |
| Accepted.Gate0Leaves | aee/types.go:429-438 | a parsed statement that passes GATE 0 has a read coverage, a manifest with classes, and no negative index; a coverage that is present but was not read cannot get there |
| StatementRules.AcceptedPlainly | aee/verify.go:81-97 | a parsed statement is accepted exactly when no condition of GATE 0 or GATE 1, each written out over the statement and its payloads in literals, raises its code, and it carries the result due |
| StatementRules.FaultsPlainly | aee/verify.go:81-97 | the codes of a parsed statement are those of GATE 0, else those of GATE 1, else the mismatch code where the result is not the one due |
| GateRules.Gate0Rules | aee/statement.go:47-165 | the codes of GATE 0 are exactly those whose conditions hold: literal types, the four result tokens, digests of 64 lowercase figures, ascent by UTF-16 units, the partition counted class by class, the manifest, integrity, layers and binding inputs |
| StatementRules.Gate1Rules | aee/validity.go:78-142 | the codes of GATE 1 are exactly those whose conditions hold: record set, posture, dangling references, every substrate row, the rules on every row, and the commitments of the run, in the order of its early returns |
| CoverageRules.RowRules | aee/validity.go:592-729 | a substrate row raises exactly these codes: by its references, by the faults of the payloads they resolve, by the kind its method and label need, and by the method cap |
| CoverageRules.RowByMethod | aee/validity.go:659-726 | a resolved row raises nothing if a valid record of the kind its method and label need is referenced with no weaker method; with no record of the kind and none that never covers, it raises exactly the code named for that method and label |
| CoverageRules.PayloadRule | aee/validity.go:283-333 | a payload raises exactly the codes of its content: undecodable, not I-JSON, not canonical, beyond the BMP, no +json type, reserved members, run binding |
| CoverageRules.KindIs | aee/validity.go:361-475 | a record covers exactly when its payload meets the constraints of the kind it names, each given by the members the payload carries |
| StatementRules.CommitsRule | aee/commitments.go:187-206 | the digest of the carried observations is that of the canonical array of the ascending hexadecimal leaf hashes of the interceptions and examinations |
| StatementRules.BindingIs | aee/runbinding.go:29-71 | the run binding is the hash of the seven-member object with the digests of the environment and the subject at their names |
| AcceptedRows.CoveredByMethod | aee/validity.go:659-708 | in an accepted statement a reconstructed substrate row is covered by an examination, an intercepted caught row by an interception, an intercepted clean row by an arming and a sealed record |
| AcceptedRows.TierPlainly | aee/tier.go:62-111 | a row of an accepted statement is declared without the substrate basis, and else attested exactly when there are keys and every record it rests on is signed under one of them |
| AcceptedRows.AdmittedPlainly | aee/verify.go:99-143 | an accepted statement is admitted exactly when it names the corpus and the substrate the policy expects and all records its substrate rows rest on are signed under the policy keys |
| AcceptedRows.AnchorsPlainly | aee/verify.go:150-164 | each of the two policy codes is there exactly when its expectation is set and not met |
| Accepted.RecomputedAdmitted | aee/statement.go:167-169 | whatever the recompute answers is a result token that GATE 0 admits |
| NonInterference.SignaturesDoNotReachValidity | aee/validity.go:239-269 | replacing signatures, as long as no empty array is introduced or removed, changes neither the set of codes, nor acceptance, nor the result |
| NonInterference.TiersNeverDrop | aee/tier.go:62-111 | adding keys or signature entries never lowers a row's tier |
| Reorder.OrderDoesNotReachValidity | aee/recompute.go:38-70 | reordering rows and permuting or repeating indexes inside a row's refs change neither acceptance nor the result |
| Reorder.TiersMove | aee/tier.go:62-91 | the tier of a moved row is the tier it had |
| Reorder.SameRowValid | aee/validity.go:602-729 | a row's validity reads its refs as a set |
| Commit.RecordsCommitted | aee/validity.go:185-235 | two accepted statements with the same batchRoot carry the same (payloadType, payload) sequence, for any two record counts, or the two root computations hashed a collision |
| Commit.ObservedSetIsASet | aee/commitments.go:187-206 | the observed-set digest depends on nothing but the set of interception and examination leaves |
| Commit.ObservedSetCommits | aee/commitments.go:187-206 | equal digests: the same set of leaves, or a collision of the two digested arrays |
| Commit.LeafCommits | aee/merkle.go:24-31 | equal leaves: the same type and payload, or a collision of the two leaf inputs |
| Commit.SharedSealCommits | aee/commitments.go:215-237 | two accepted substrate-carrying statements sharing the payload of a seal of their runs carry the same observed leaves (each observed record of one has its partner in the other) and derive from the same seven binding inputs, or a collision is exhibited |
| Commit.InputsAreHex | aee/statement.go:401-450 | on such statements all seven binding inputs are lowercase hexadecimal or empty, which the binding format relies on |
| Witnesses.CleanAccepted | aeetest/build.go:137-287 | the clean statement, for any digests, passes both gates with result pass unless its two leaf inputs collide |
| Witnesses.CaughtAccepted | aeetest/build.go:137-287 | the caught statement passes both gates with result fail unless its two leaf inputs collide |
| ArtifactWitnesses.ArtifactOnlyAccepted | aeetest/build.go:289-330 | the artifact-only statement is accepted with result fail |
| ArtifactWitnesses.IndirectAccepted | aee/recompute.go:56-66 | a clean artifact row under complete coverage is accepted with result pass_indirect |
| ArtifactWitnesses.DegradedAccepted | aee/recompute.go:56-66 | the same row with a class routed elsewhere is accepted with result degraded |
| Builder.SealOfRun | aeetest/build.go:344-370 | for any records of a run appended together, as the builder appends them, the digest signed into their seal is the one the verifier recomputes from the whole statement |
| Builder.SealIsRecompute | aee/commitments.go:187-237 | producer digest and verifier recompute depend on the records only through the set of observed leaves, so equal sets give equal digests |
| Builder.ComputeSeal | aeetest/build.go:344-370 | the producer's loop collects each leaf once and digests them in byte order |
| Builder.BuiltPayload | aeetest/build.go:372-384 | a payload the builder writes parses back to its own members and is its own canonical form |
| Witnesses.VocabularyIsCanonical | aee/statement.go:228-236 | the vocabulary pre-image is the RFC 8785 text of the object it stands for |
| Evaluate.RunEvaluate | aee/verify.go:81-97 | a context is returned exactly on accepted statements; otherwise the codes are those of the first failing stage |
| Evaluate.AcceptsExactly | aee/verify.go:81-97 | acceptance is the absence of codes |
| Evaluate.Verify | aee/verify.go:112-129 | verdict, codes and result are determined by the statement alone, whatever the policy; an invalid report carries no result and no tiers |
| Evaluate.DeriveTiers | aee/tier.go:62-91 | each row gets declared, unattested or attested by its basis and by whether all its covering records verify; the re-check of a sealed row finds no code |
| Evaluate.SealedRow | aee/tier.go:74-79 | on a sealed context a substrate row raises no code, so the fail-closed branch is unreachable |
| Evaluate.CheckRecordSignatures | aee/tier.go:118-144 | succeeds exactly when every covering record of every substrate row verifies |
| Evaluate.RecordVerifies | aee/tier.go:95-111 | some decodable signature verifies over the PAE bytes under some key |
| Evaluate.TierPolicySatisfied | aee/verify.go:135-143 | every substrate row is attested |
| Gate0.RunGate0 | aee/statement.go:47-165 | the exact set of codes; `GateRules.Gate0Rules` writes the condition of each out in literals |
| Gate0.CheckVocabulary | aee/statement.go:193-224 | shape, order, BMP profile, subset and digest, each with its code |
| Gate0.WriteVocabulary | aee/statement.go:228-236 | the buffer ends up holding the digest pre-image |
| Gate0.CheckPartition | aee/statement.go:339-368 | true exactly when every class of the manifest is counted once across the three coverage members and no other class is counted at all |
| Gate0.CheckIntegrity | aee/statement.go:332-399 | partition, one row per attack, known attacks, and rows equal to the assessed attacks |
| Gate0.WalkRows | aee/statement.go:376-398 | the row ids, a repeated id and an unknown id |
| Gate0.CheckLayers | aee/statement.go:133-147 | a missing layer, and a clean row with a layer, tested only under a vocabulary that raised nothing |
| Gate0.CheckBindingInputs | aee/statement.go:401-450 | missing run entropy, missing subject digest, and a digest that is not lowercase 64-hex |
| CorpusManifest.CheckCorpus | aee/statement.go:249-300 | digest, repeated identifier, no identifier at all, and expected payloads |
| CorpusManifest.WalkClasses | aee/statement.go:259-273 | a repeated identifier is reported exactly when two positions of the classes hold one identifier, wherever they are |
| CorpusManifest.ExpectedPayloadsShape | aee/statement.go:311-330 | the code is raised exactly when some entry breaks a shape rule |
| CorpusManifest.SameStringSet | aee/statement.go:497-507 | equal sizes and one inclusion decide set equality |
| Gate1.RunGate1 | aee/validity.go:78-142 | the exact set of codes, and the derived binding and instant on substrate-carrying statements; `StatementRules.Gate1Rules` writes the conditions out |
| Gate1.AnyRefOutOfRange | aee/validity.go:541-554 | some row of any basis has well-formed refs that leave the record set |
| Gate1.PosturePreimage | aee/runbinding.go:58-71 | empty or a lowercase 64-hex digest |
| Gate1.ScanJsonObject | aee/types.go:213-223 | the first byte that is no white space opens an object |
| RecordSet.CheckRecordSet | aee/validity.go:150-237 | signature presence, decodability, duplicates among decoded records only, and the root over a fully decoded set |
| RecordSet.HasDuplicate | aee/validity.go:214-225 | two decoded records share a leaf; undecoded ones never do |
| RecordSet.DecodeRecords | aee/validity.go:184-200 | states and leaves of the decoded records, and whether one failed |
| Payloads.AnalyzePayload | aee/validity.go:283-333 | the exact set of codes of a payload, and its kind and method where there is none |
| Payloads.BoundMeans | aee/validity.go:283-333 | a payload raises no code exactly when it is canonical, BMP-named, of a +json type, complete in reserved members, and names this run |
| Payloads.EvaluateKind | aee/validity.go:361-401 | valid exactly when the constraints of the declared kind hold, with the code to report when not |
| Payloads.ArmingConstraintsMet | aee/validity.go:405-437 | the tests in order decide the conjunction of the arming constraints |
| Payloads.SealedConstraintsMet | aee/validity.go:441-475 | the tests in order decide the conjunction of the sealed constraints |
| Payloads.ArmingChainSyntaxValid | aee/validity.go:505-533 | the tests in order decide the run-chaining syntax |
| Rows.CheckSubstrateRow | aee/validity.go:592-729 | the exact set of codes of the first stage that raises any, and on success exactly the covering records; `CoverageRules.RowRules` writes the conditions out |
| Rows.MatchClass | aee/validity.go:680-708 | whether a kind is met, by which records, and which of the three codes an unmet one reports |
| Rows.CollectPostures | aee/validity.go:643-651 | the posture claims of the arming records a row resolves |
| Rows.CheckCap | aee/validity.go:716-726 | an intercepted row resting on a reconstructed covering record |
| Rows.UniqueRefs | aee/validity.go:611-626 | the indexes once each in order of first occurrence, or out of range |
| Commitments.CleanRowsContradicted | aee/commitments.go:128-143 | the code is raised exactly when a clean row resolves an interception |
| Commitments.InterceptionsOrphaned | aee/commitments.go:149-175 | the code is raised exactly when some interception is resolved by no caught row |
| Commitments.MarkResolved | aee/commitments.go:154-169 | an entry is set exactly when a caught row resolves the record |
| Commitments.AttributionBindings | aee/commitments.go:476-494 | the fault of the first pinned row that has one, in the order existence, expectation, match |
| Commitments.PinMatches | aee/commitments.go:511-536 | every resolved interception with a readable commitment array shares a value with the expectation |
| Commitments.RowResolves | aee/commitments.go:66-76 | the row resolves an in-range record of the kind |
| Commitments.RecordKinds | aee/commitments.go:31-50 | the kind each record shows |
| Seals.SealsCommitToCarriedSet | aee/commitments.go:215-237 | the code is raised exactly when a seal of this run commits to another observed set |
| Seals.ComputeObservedSet | aee/commitments.go:187-206 | byte sorting the collected leaves gives the digest of their code-unit sorted, duplicate-free array |
| Seals.HexOrdersAgree | aee/commitments.go:182-186 | on hexadecimal strings byte order is UTF-16 order |
| Seals.SealedRecordPresent | aee/commitments.go:243-261 | the code is raised exactly when no bound seal meets its constraints |
| Seals.CarriedRecordsCover | aee/commitments.go:334-354 | the codes of all bound records of a covering kind whose constraints are not met |
| Seals.SealNamedAttacksCaught | aee/commitments.go:397-427 | the code is raised exactly when a seal of this run names an attack no row caught |
| Seals.AssessedSetDeclared | aee/commitments.go:438-468 | the code is raised exactly when an arming array leaves out an assessed attack |
| Codes.AppendCode | aee/codes.go:203-210 | each code once, detection order kept |
| Recompute.RunRecompute | aee/recompute.go:38-70 | the result of the rows and the coverage, which `Recompute.ResultPlainly` gives for each of the four tokens |
| Recompute.ResultPlainly | aee/recompute.go:38-109 | each of the four results exactly under its condition on labels, bases, methods, attribution and coverage: fail before degraded before pass_indirect before pass |
| Recompute.ConcatenationIsMinimum | aee/recompute.go:38-70 | over a concatenation of rows the recompute is the minimum of the two |
| Recompute.ResultMeans | aee/recompute.go:86-109 | not fail means no row forces one; pass means complete coverage and direct clean rows only |
| Recompute.MinResult | aee/recompute.go:129-134 | one of the two, ranked no higher than either |
| Recompute.PyRecompute | packaging/run_vectors.py:2390-2427 | the Python rail computes the same result from the same rows, so `Recompute.ResultPlainly` holds of it |
| Statements.ParsePredicate | aee/types.go:409-479 | each member as read, its presence recorded, the exact set of parse codes, and the invariant the gates rely on |
| Statements.ParseRow | aee/types.go:583-630 | the members read; refs hold only non-negative indexes, all of them unless flagged |
| Statements.ParseEnvironment | aee/types.go:481-541 | a member that does not decode is absent and leaves the catch-all code |
| Statements.RefIndexExactly | aee/types.go:634-647 | an entry is accepted as k exactly when its number token, or the text of its string, is the plain decimal text of k and k is below 2^63 |
| Statements.RefIndexMeetsDescription | aee/types.go:632-647 | of the accepted entries exactly the number tokens are the non-negative JSON integers the rule calls for |
| Statements.QuotedIndexAccepted | aee/types.go:632-647 | the string entry "0" is accepted although it is no JSON integer |
| ParseRules.ParseCodes | aee/types.go:409-630 | which undecodable member leaves which code: the result and issuedAt their own, every other the catch-all, the references of a row none |
| ParseRules.PredicateStored | aee/types.go:409-479 | an undecodable string member keeps what the decoder had stored, an undecodable coverage is absent, each recorded as present |
| ParseRules.RowStored | aee/types.go:583-647 | the references stored are those in front of the first that is not the plain decimal of a number below 2^63 |
| ParseRules.EnvironmentStored | aee/types.go:481-541 | an undecodable member of the environment is absent; an empty manifest is not decoded |
| Ingest.ParseStatement | aee/types.go:352-407 | refused exactly when the envelope does not decode, carries no predicate, or the strict pass ends in one of the promoted errors |
| Ingest.ProfileFaultExactly | aee/types.go:363-393 | a syntactically valid document is refused exactly when it repeats a member, nests past 128 or holds a string that is no clean scalar sequence, and no number off the profile is read before its first repeated member and its first container past the bound |
| Ingest.StringFaultRefused | aee/types.go:363-393 | so a string fault is refused exactly when no such number comes first, wherever in the document the string stands |
| Ingest.RepeatRefused | aee/types.go:363-393 | and a repeated member exactly when no such number comes first |
| Ingest.ProfileHolds | aee/types.go:363-393 | a document whose numbers are all on the profile and that is not refused has distinct names, clean strings and bounded nesting at every depth |
| Ingest.NumberHidesSurrogate | aee/types.go:352-407 | the bytes of an object with a predicate holding an unpaired surrogate and a later member 1.5: parsed into a statement |
| Ingest.NumberHidesRepeat | aee/types.go:352-407 | the bytes of an object with a member 1.5 and then a predicate that repeats a member: parsed into a statement |
| Literals.DocumentScanExactly | aee/jcs.go:151-166 | on every syntactically valid document the scan over the raw bytes succeeds exactly when every string literal, name or value, at any depth, denotes a sequence of scalar values without a noncharacter |
| Grammar.StrictExactly | aee/jcs.go:122-149 | over every syntactically valid document the strict pass ends with the first fault in document order, scans strings only when there is none, and else returns the value |
| Grammar.FirstFaultMeans | aee/jcs.go:291-367 | which of the errors that is, told by the order of off-profile numbers, repeated members and containers past the bound |
| Grammar.EventsShow | aee/jcs.go:291-367 | a walk over the document meets a fault of each kind exactly when the document has one |
| Syntax.GrammarExactly | aee/jcs.go:122-149 | the documents read as a value are exactly the texts of the RFC 8259 syntax trees that stand for it, over literal bytes: four kinds of white space between tokens and no other byte |
| Documents.AcceptedTexts | aee/jcs.go:122-162 | the parser accepts exactly the texts of trees nested at most 128 deep whose numbers are integers within 9007199254740991, whose objects repeat no name and whose strings denote clean scalar values, and answers what the tree stands for |
| Documents.SpacingForgotten | aee/jcs.go:122-162 | documents with the same tokens are parsed, refused and canonicalized alike, however they are spaced |
| Documents.TextParses | aee/jcs.go:122-162 | on every text of the grammar the answer is the first fault of its tree, then the string fault, then the value |
| Spellings.DenotesPlainly | aee/jcs.go:185-257 | a body denotes a string exactly when it spells each of its characters: raw UTF-8, one of eight short escapes, a \u escape or two surrogates, all in figures |
| Spellings.ScalarsPlainly | aee/jcs.go:259-268 | a literal is clean exactly when it spells characters none of which is among U+FDD0..U+FDEF and the thirty-four code points that end a plane |
| Spellings.CanonicalIsShortest | aee/jcs.go:443-473 | of all spellings of a character the canonical writer takes the one that is shortest with figures in lower case |
| Spellings.AsciiIsShortest | corpora/pyjson.go:128-170 | and the Python encoder under ensure_ascii the one that is shortest in printable ASCII |
| CanonicalForm.CanonicalTexts | aee/jcs.go:369-441 | the texts canonicalization leaves as they are, are exactly those of accepted trees without white space, with plain integers, shortest spellings and names ascending by UTF-16 units |
| CanonicalForm.UnitsBeforeIs | aee/jcs.go:522-535 | the order of the names compares UTF-16 code units at the first place where they differ |
| RoundTrip.ParseCanon | aee/jcs.go:390-441 | parsing the canonical text of a value, in any context that delimits it and under any sufficient bound, gives its normal form |
| Canonical.CanonParsesBack | aee/jcs.go:369-379 | canonical text parses back to the same value up to member order and number notation, and is a fixed point |
| Canonical.CanonicalizeIdempotent | aee/jcs.go:369-379 | idempotent on every accepted input |
| Canonical.CanonEqualIffSame | aee/jcs.go:390-441 | two values are written alike exactly when they differ at most in member order and number notation |
| Canonical.CanonicalizeDecidesSameness | aee/jcs.go:369-379 | every parsed document canonicalizes, and two do so to the same bytes exactly when they hold the same value |
| Canonical.MemberOrderForgotten | aee/jcs.go:415-436 | member order in the input never reaches the output |
| Parsed.ParseJsonWellFormed | aee/jcs.go:140-162 | a parsed value has distinct member names, clean strings and safe numbers, within the depth bound |
| Parsed.ParsedWritable | aee/jcs.go:390-393 | the writer meets no error on a parsed value |
| Codec.ParseJsonValue | aee/jcs.go:140-162 | the decoder that consumes its input computes the parse, whose accepted texts and values are those of `Documents.AcceptedTexts` |
| Codec.Decoder.DecodeValue | aee/jcs.go:291-361 | reads one value and leaves exactly the rest |
| Codec.AppendCanonical | aee/jcs.go:390-441 | appends the canonical text, or fails exactly on a value past the bound or with an unsafe number |
| Codec.AppendJcsString | aee/jcs.go:446-473 | appends the escaped literal |
| Codec.CanonicalizeBytes | aee/jcs.go:369-379 | parser and buffer together compute Canonicalize |
| Codec.AppendStringArray | aee/statement.go:238-247 | appends the array's canonical text |
| Codec.StringArrayIsCanonical | aee/statement.go:238-247 | which is what the RFC 8785 writer emits for it |
| NestingDepth.OneDepth | aee/jcs.go:291-307 | on every syntactically valid document the bracket scan measures the tree depth; the decoder answers "too deep" exactly past 128 where no off-profile number and no repeated member is read before; the writer's own check never fires on what the decoder let through |
| NestingDepth.DepthsAgree | packaging/run_vectors.py:472-492 | without off-profile numbers and repeated members decoder, bracket scan and jsonDepth agree on whether 128 is exceeded |
| NestingDepth.JsonDepthExactly | corpora/agentaction.go:291-310 | on the decoded map, which keeps the last of a repeated member, jsonDepth exceeds a bound exactly when one container more than the bound is nested along members that are not overwritten; it never exceeds the depth of the document |
| NestingDepth.JsonDepthMisses | corpora/agentaction.go:291-310 | a document with a repeated member on which jsonDepth falls short of the bracket scan |
| NestingDepth.MaxJsonDepth | packaging/run_vectors.py:472-492 | the flag-driven scan computes the deepest bracket nesting outside strings |
| NestingDepth.JsonDepth | corpora/agentaction.go:291-310 | the corpus's own depth is the tree depth |
| NestingDepth.BoundDecides | aee/jcs.go:291-307 | lowering the bound turns acceptance into "too deep" exactly when the value is deeper |
| Scan.AcceptedIffDenotesClean | aee/jcs.go:185-257 | a literal is accepted, with its exact span, exactly when it denotes a string of scalar values without a noncharacter |
| Scan.AcceptedDecodesExactly | aee/jcs.go:140-180 | on accepted literals the substituting decoder substitutes nothing |
| Scan.RailsStepAlike | packaging/run_vectors.py:283-354 | both scanners take the same step on every input |
| Scan.CheckStringLiteral | aee/jcs.go:185-215 | the index loop computes the span |
| Scan.PyCheckStringLiteral | packaging/run_vectors.py:325-354 | the Python loop computes the same span |
| Scan.CheckStringScalars | aee/jcs.go:167-180 | the document scan passes exactly when every literal it meets does |
| Scan.JcsReadsBack | aee/jcs.go:446-473 | a written literal delimits itself and reads back, and passes the scan if clean |
| Utf8.RailsDecodeAlike | packaging/run_vectors.py:357-365 | the strict Python decoder and utf8.DecodeRune accept the same sequences |
| Utf8.EncodeDecoded | aee/jcs.go:200-210 | what decodes is the encoding of what it decodes to |
| Numbers.AcceptedExactly | aee/jcs.go:92-107 | accepted exactly when the literal's value is an integer of magnitude below 2^53, in any notation |
| Decimals.ValuePlainly | aee/jcs.go:92-107 | the value of a literal is that of its figures, those behind the point as tenths, times ten to its exponent |
| Numbers.CanonicalNumber | aee/jcs.go:538-587 | an accepted literal is written as the plain decimal of its value, minus zero as 0; neither the fraction nor the exponent form is reached |
| Numbers.CanonicalByValue | aee/jcs.go:538-561 | accepted literals are written alike exactly when their values are equal |
| Numbers.RailsReadNumbersAlike | packaging/run_vectors.py:396-425 | both rails accept the same literals with the same value |
| Numbers.LexNumberText | aee/jcs.go:352-355 | the number lexer inverts the literal's text |
| Order.Utf16LessTotal | aee/jcs.go:522-535 | asymmetric, and total up to equality, on strings of scalar values |
| Order.Utf16LessTransitive | aee/jcs.go:522-535 | and transitive: a strict total order |
| Order.CompareUtf16 | aee/jcs.go:522-535 | the comparison loop decides it |
| Order.IsSortedNoDuplicates | aee/statement.go:480-487 | comparing neighbours decides that the whole array ascends strictly |
| Order.AdjacentIsGlobal | aee/statement.go:480-487 | neighbour-wise ascent is global ascent |
| Order.AscendingUnique | aee/statement.go:480-487 | a set of strings has one ascending listing |
| Order.OrdersDisagreeExactly | packaging/run_vectors.py:136-149 | UTF-16 order and code-point order disagree on exactly the pairs whose first difference sets a supplementary character against one of U+E000..U+FFFF |
| Order.BmpOrdersCoincide | aee/jcs.go:475-490 | on BMP-only strings they coincide |
| Order.ByteOrderIsPointOrder | corpora/pyjson.go:98-101 | UTF-8 byte order is code-point order on every string |
| Order.RailsSortAlike | packaging/run_vectors.py:136-149 | big-endian UTF-16 bytes compare as the code units do |
| Sorting.SortByUtf16 | corpora/agentaction.go:495-501 | the in-place insertion sort sorts |
| Sorting.SortForgetsOrder | aee/jcs.go:417-420 | sorting distinct names forgets the input order |
| PyJson.OrdersWriteAlike | corpora/pyjson.go:97-121 | on values whose member names are BMP-only the two orders write the same bytes at every depth |
| PyJson.OrdersWriteApart | corpora/pyjson.go:97-121 | beyond the BMP they need not |
| PyJson.EncodePython | corpora/pyjson.go:64-126 | appends the text, or fails exactly on a value holding a number with a fraction or an exponent |
| PyJson.WritePythonString | corpora/pyjson.go:131-170 | appends the escaped literal |
| PyJson.PyReadsBack | corpora/pyjson.go:131-170 | either spelling delimits itself and reads back as the string it was written for |
| PyJson.AsciiOnly | corpora/pyjson.go:131-170 | ensure_ascii leaves no byte from 0x80 up |
| PyJson.PyIsCanonical | packaging/run_vectors.py:170-231 | raw strings in UTF-16 order are RFC 8785 text |
| Merkle.RootCommits | aee/merkle.go:35-49 | equal roots: the same leaf inputs in the same order, for any two leaf counts, or a collision among what the two computations hashed |
| Dsse.EnvelopeReads | aee/pae.go:12-14 | a reader of the DSSE v1 format, written over literal bytes, reads every encoding back as the payload type in UTF-8 and then the payload |
| Merkle.PaeInjective | aee/pae.go:12-14 | two envelopes with the same encoding are the same; which encoding it is, `Dsse.EnvelopeReads` says |
| Merkle.LargestPowerOfTwoBelow | aee/merkle.go:53-59 | a power of two k with 0 < k < n <= 2k |
| Merkle.SplitUnique | aee/merkle.go:51-59 | which determines k |
| Merkle.RailsRootAlike | packaging/run_vectors.py:597-610 | the Python recursion over index ranges computes the same root |
| Binding.BindingCommits | aee/runbinding.go:38-40 | equal bindings: the same seven inputs, or a collision of the two pre-images |
| Binding.PreimageIsCanonical | aee/runbinding.go:29-33 | the format string emits the RFC 8785 bytes of the binding object |
| Binding.PreimageText | aee/runbinding.go:29-33 | the pre-image is this literal text with the seven inputs in their places |
| Binding.PreimageInjective | aee/runbinding.go:29-33 | the pre-image determines the seven inputs |
| Core.ScanLowerHex64 | aee/pae.go:24-35 | the byte scan decides 64 lowercase hexadecimal characters |
| Core.HexFigures | aee/pae.go:17-20 | two figures of 0123456789abcdef a byte, the high one first |
| Core.SHA256HexBinds | aee/pae.go:17-20 | equal hexadecimal digests: equal inputs or a collision |
| Ed25519.AddCommutes | packaging/run_vectors.py:641-649 | _pt_add is commutative |
| Ed25519.IdentNeutral | packaging/run_vectors.py:638-665 | _IDENT is neutral up to _pt_eq |
| Ed25519.AddKeepsExtended | packaging/run_vectors.py:641-649 | every sum satisfies XY = ZT modulo p |
| Ed25519.EqTransitive | packaging/run_vectors.py:662-665 | without zero divisors _pt_eq is transitive away from Z = 0 |
| Ed25519.AddRespectsEq | packaging/run_vectors.py:641-649 | and _pt_add respects it |
| Ed25519.PtMul | packaging/run_vectors.py:652-659 | the shifting loop computes double-and-add |
| EdwardsCurve.SumOnCurve | packaging/run_vectors.py:638-649 | the curve -x^2 + y^2 = 1 + d x^2 y^2 is closed under _pt_add, which never produces Z = 0 on it: the addition law is complete |
| EdwardsCurve.CurveIsGroup | packaging/run_vectors.py:638-665 | so of the group law only associativity is left to assume |
| EdwardsCurve.MultiplesOnCurve | packaging/run_vectors.py:652-659 | given associativity on the curve, double-and-add is s-fold addition for every s and every point of the curve |
| PointCoding.EncodingDecodes | packaging/run_vectors.py:685-710 | decoding the encoding of any point of the curve gives the point: the root is found and its sign chosen right |
| PointCoding.DecodingEncodes | packaging/run_vectors.py:685-710 | whatever decodes is a point of the curve, and its encoding is what was decoded: no second encoding is accepted |
| PointCoding.EncodingsExactly | packaging/run_vectors.py:692-710 | the bytes accepted as a point are exactly the encodings of the points of the curve |
| PointCoding.EncodedAlike | packaging/run_vectors.py:685-689 | two points of the curve have one encoding exactly when they are equal |
| PointCoding.BaseIs | packaging/run_vectors.py:617-682 | d is -121665/121666, and _B is the point of the curve with y = 4/5 and even x |
| PointCoding.ScalarIs | packaging/run_vectors.py:713-727 | the secret scalar is the low half of the hash with five bits of its first and last byte fixed |
| PointCoding.SignExactly | packaging/run_vectors.py:721-732 | a signature is the encoding of rB and r + ka modulo L, r and k hashes of the named inputs in this order |
| PointCoding.VerifyExactly | packaging/run_vectors.py:735-748 | accepted are exactly 64 bytes that encode a point R and a scalar S below L with SB = R + kA for the point A the key encodes |
| PointCoding.SignaturesVerify | packaging/run_vectors.py:713-748 | given Fermat for p, the number facts, an order of the base point dividing L and associativity, every signature verifies |
| Ed25519.LittleRoundTrip | packaging/run_vectors.py:721-748 | little-endian bytes round trip |
| Aci.Run | corpora/aci.go:344-399 | the codes that fire, each at the worst severity at which it fires; `AciRules.FiringsExactly` says which fire |
| AciRules.FiringsExactly | corpora/aci.go:344-734 | each of the nineteen codes fires at a level with a severity exactly when its condition on the files holds, all written out in literals |
| AciRules.GrammarRule | corpora/aci.go:104-104 | the identifier grammar is segments of letters, digits, _ and -, each beginning with a letter or digit, joined by dots |
| AciRules.EntityRule | corpora/aci.go:510-538 | the entities of a level are the objects in the content blocks of its manifests |
| Aci.SummaryUnique | corpora/aci.go:344-353 | what fires settles the outcome: neither check order nor map iteration order reaches it |
| Aci.LevelsMonotone | corpora/aci.go:256-399 | between any two levels, every code of the lower is there at the higher with at least its severity, so a deployment accepted at one level is accepted at every lower one |
| Aci.FiringsGrow | corpora/aci.go:344-399 | whatever fires at a level fires at the next |
| Aci.CheckAgents | corpora/aci.go:702-734 | unnamed, repeated and malformed agents, and no operational one |
| Aci.CheckDiscovery | corpora/aci.go:564-617 | unlinked manifests, and the discovery file |
| Aci.CheckExtensions | corpora/aci.go:432-453 | an unprefixed unknown field, and a prefixed known one |
| Aci.CollectValues | corpora/aci.go:541-557 | two required manifests disagree on a field |
| CheckDigit.OrcidCheckDigitOk | scripts/citation-metadata-gate.py:104-123 | what each identifier comes to, and on which the routine raises |
| CheckDigit.AcceptedWeighted | scripts/citation-metadata-gate.py:116-123 | a body and its check value are accepted exactly when their sum, weighted by powers of two, is 1 modulo 11 |
| CheckDigit.CheckCharacters | scripts/citation-metadata-gate.py:116-123 | the last character stands for its figure, X in either case for ten |
| CheckDigit.BodyCharacters | scripts/citation-metadata-gate.py:111-118 | of the ASCII characters exactly the ten figures are digits, each with its value |
| CheckDigit.HyphenDropped | scripts/citation-metadata-gate.py:111-111 | a hyphen is dropped wherever it stands |
| CheckDigit.SubstitutionCaught | scripts/citation-metadata-gate.py:116-123 | two identifiers differing in one digit are never both accepted, for any body length |
| CheckDigit.TranspositionCaught | scripts/citation-metadata-gate.py:116-123 | nor two differing by swapping unequal adjacent digits |
| CheckDigit.CheckTranspositionCaught | scripts/citation-metadata-gate.py:116-123 | nor by swapping the last digit with a different check character |
| CheckDigit.RaisesOnSuperscript | scripts/citation-metadata-gate.py:104-123 | an identifier on which the routine raises although its description says that it never does |

## Left out

- Size caps in bytes (20 MiB for a payload, 64 MiB for a statement): resource guards.
- Number literals whose exponent makes the rational parse fail: every literal is read as an exact rational.
- Text of non-integer floats and of the exponent form in number formatting: unreachable, as Numbers.CanonicalNumber shows.
- Codec.AppendCanonical: which of its two errors the writer returns is not distinguished.
- The order of codes in a list beyond each code once and the first staying first: contracts speak of sets of codes.
- Soundness.NotFailSealsEmpty: stated for statements with a substrate row, the only ones on which the rule is evaluated (`aee/commitments.go:397-427`), since only those derive a binding.
- Ingest.NumberHidesSurrogate: of `json.Unmarshal` into the envelope only this is used: an object none of whose names can match `_type`, `subject` or `predicateType` is taken, and its member `predicate` is kept.
- Error message text, report rendering, `VerifyForEmit`'s wording, and the admission codes beyond their independence from validity.
- `encoding/json`, base64, RFC 3339 and `crypto/ed25519` themselves.
- Envelope decoding from bytes to `RawStatement`; the builder's statements are given in parsed form, their payloads, manifest and posture as bytes.
- Binding.PreimageInjective: `%q` is modelled on hexadecimal strings only, which GATE 0 guarantees on every statement whose binding is used.
- The builder's fault options.
- Witnesses.CleanAccepted: the two leaves must not collide, since a duplicate leaf is refused and SHA-256 is uninterpreted.
- Equality of the two rails as wholes: they recompute and read posture claims under different conditions; agreement is stated for the scanner, depth, numbers, tree, orders and row classification.
- Aci.CheckDiscovery: link extraction from `llms.txt` is an uninterpreted function from text to base names.
- Corpus readers, manifests of the corpora, `checkMemberNameSides`, subprocess rails, the command line and the other scripts: shallow field checks or plumbing.
- CheckDigit.OrcidCheckDigitOk: outside ASCII and three superscripts, which characters are digits is an uninterpreted table.
