/** Accepted statements without a substrate row: the one BuildArtifactOnly makes
    (aeetest/build.go), and one each whose result is pass_indirect and degraded. */
module ArtifactWitnesses {
  import opened Core
  import opened Sorting
  import opened Scan
  import opened Json
  import opened Statements
  import opened CorpusManifest
  import opened Gate0
  import opened Commitments
  import opened Gate1
  import opened Accepted
  import opened Builder
  import opened Witnesses
  import Canonical
  import Recompute

  const OTHER_CLASS: string := "XB"
  const OTHER_ATTACK: string := "XB-EXAMPLE-1"

  /** A manifest of two classes, and what it declares. */
  function TwoClassManifest(): Value {
    Obj([Entry("classes", Obj([Entry(CLASS, Arr([Str(ATTACK)])), Entry(OTHER_CLASS, Arr([Str(OTHER_ATTACK)]))]))])
  }

  const TWO_CLASSES: Classes := map[CLASS := [ATTACK], OTHER_CLASS := [OTHER_ATTACK]]

  const ROUTED: Coverage := Coverage([CLASS], map[], map[OTHER_CLASS := "another corpus"])

  function CorpusOf(manifest: Value, classes: Classes): Corpus {
    Corpus(Sha(SHA256Hex(Canon(manifest))), Canon(manifest), Some(classes), NoPayloads)
  }

  function ArtifactEnvironment(f: Fixture, corpus: Corpus): Environment {
    BuiltEnvironment(f).(corpus := Some(corpus), runEntropy := None)
  }

  /** The row of an artifact-only statement. */
  function ArtifactRow(observed: string): Row {
    Row(ATTACK, observed, Some(BASIS_ARTIFACT), Some(METHOD_RECONSTRUCTED), Some(ATTRIBUTION_PAIRED), Some(LAYER_NONE),
      false, false, [])
  }

  /** No records, no batchRoot, no runEntropy. */
  function ArtifactStatement(f: Fixture, observed: string, corpus: Corpus, cov: Coverage, result: string): Statement {
    Statement(STATEMENT_TYPE, PREDICATE_TYPE, [Sha(f.subject)],
      Predicate(false, result, true, Some(ArtifactEnvironment(f, corpus)), Some(cov), true, [ArtifactRow(observed)], true,
        [], false, "", false, f.issuedAt, true), [])
  }

  lemma TwoClassesDistinct()
    ensures CLASS != OTHER_CLASS && ATTACK != OTHER_ATTACK
    ensures EachOnce(TWO_CLASSES) && !NoAttacks(TWO_CLASSES)
    ensures Declared(TWO_CLASSES, ATTACK)
  {
    assert CLASS[1] != OTHER_CLASS[1] && ATTACK[1] != OTHER_ATTACK[1];
    assert TWO_CLASSES[CLASS] == [ATTACK] && TWO_CLASSES[OTHER_CLASS] == [OTHER_ATTACK];
    assert ATTACK in TWO_CLASSES[CLASS];
  }

  lemma NamesClean()
    ensures Clean(ATTACK) && Clean(OTHER_ATTACK) && Clean(CLASS) && Clean(OTHER_CLASS) && Clean("classes")
  {
  }

  lemma OneIdentifier(id: string)
    requires Clean(id)
    ensures WellFormed(Arr([Str(id)])) && Depth(Arr([Str(id)])) == 1
  {
    hide Clean;
    FlatItemsDepth([Str(id)]);
  }

  lemma TwoClassesBuilt()
    ensures CorpusOk(CorpusOf(TwoClassManifest(), TWO_CLASSES))
  {
    hide Canon, Canonicalize, SHA256Hex, EachOnce, NoAttacks, Clean, ParseJson, WellFormed, Depth;
    var a, b := Arr([Str(ATTACK)]), Arr([Str(OTHER_ATTACK)]);
    NamesClean();
    OneIdentifier(ATTACK);
    OneIdentifier(OTHER_ATTACK);
    TwoClassesDistinct();
    TwoMembers(CLASS, a, OTHER_CLASS, b);
    var classes := Obj([Entry(CLASS, a), Entry(OTHER_CLASS, b)]);
    OneMemberObject("classes", classes, 2);
    assert TwoClassManifest() == Obj([Entry("classes", classes)]);
    Canonical.CanonParsesBack(TwoClassManifest());
    ObjectText([Entry("classes", classes)]);
  }

  lemma EnvironmentReady(f: Fixture, corpus: Corpus)
    requires CorpusOk(corpus)
    ensures EnvironmentOk(ArtifactEnvironment(f, corpus))
  {
    hide Canon, CorpusDigest, ManifestValue, VocabularyOk, CorpusOk, VocabularyDigest, PostureValue;
    VocabularyBuilt();
  }

  /** The rows are the one attack of the one class assessed. */
  lemma RoutedIntegrity(s: Statement, observed: string)
    requires s.predicate_.rows == [ArtifactRow(observed)]
    ensures IntegrityOk(s.predicate_, ROUTED, TWO_CLASSES)
  {
    var p := s.predicate_;
    TwoClassesDistinct();
    assert ROUTED.assessedClasses == [CLASS] && TWO_CLASSES[CLASS] == [ATTACK];
    forall c: string ensures Accounted(ROUTED, c) == if c in TWO_CLASSES then 1 else 0 {}
    forall id: string ensures HasRow(p.rows, id) <==> Expected(ROUTED, TWO_CLASSES, id) {
      assert ROUTED.assessedClasses[0] == CLASS;
      assert p.rows[0].attackId == ATTACK;
      assert HasRow(p.rows, id) <==> id == ATTACK;
      assert Expected(ROUTED, TWO_CLASSES, ATTACK);
    }
  }

  lemma NoSubstrate(observed: string, p: Predicate)
    requires p.rows == [ArtifactRow(observed)]
    ensures !HasSubstrateRows(p)
  {
    assert BASIS_ARTIFACT[0] != BASIS_SUBSTRATE[0];
  }

  /** Both gates accept such a statement. */
  lemma GatesPass(f: Fixture, observed: string, corpus: Corpus, cov: Coverage, result: string)
    requires FixtureOk(f) && CorpusOk(corpus) && corpus.classes.Some? && corpus.payloads == NoPayloads
    requires observed in LABELS && IsResultToken(result)
    requires IntegrityOk(ArtifactStatement(f, observed, corpus, cov, result).predicate_, cov, corpus.classes.value)
    ensures var s := ArtifactStatement(f, observed, corpus, cov, result);
            WellParsed(s.predicate_, s.parseCodes) && Gate0Ok(s) && GateReady(s.predicate_) && Gate1Ok(s)
  {
    hide EnvironmentOk, CorpusOk, BuiltEnvironment, IntegrityOk, IsResultToken, FixtureOk, CleanLabel;
    var s := ArtifactStatement(f, observed, corpus, cov, result);
    var p := s.predicate_;
    EnvironmentReady(f, corpus);
    FixtureTimes(f);
    BuiltMembers(f);
    NoSubstrate(observed, p);
    assert p.env.value.vocabulary == BuiltEnvironment(f).vocabulary;
    assert ATTRIBUTION_PAIRED[1] != ATTRIBUTION_PINNED[1];
    assert AttributionFault(p, p.rows[0]).None?;
    assert EnvelopeOk(s);
  }

  lemma ArtifactAccepted(f: Fixture, observed: string, corpus: Corpus, cov: Coverage, result: string)
    requires FixtureOk(f) && CorpusOk(corpus) && corpus.classes.Some? && corpus.payloads == NoPayloads
    requires observed in LABELS && IsResultToken(result)
    requires IntegrityOk(ArtifactStatement(f, observed, corpus, cov, result).predicate_, cov, corpus.classes.value)
    requires Recompute.Recomputed(ArtifactStatement(f, observed, corpus, cov, result).predicate_) == result
    ensures Accepts(ArtifactStatement(f, observed, corpus, cov, result))
  {
    hide CorpusOk, IntegrityOk, IsResultToken, FixtureOk, Gate0Ok, Gate1Ok, GateReady, WellParsed, Recompute.Recomputed;
    GatesPass(f, observed, corpus, cov, result);
    AcceptsMeans(ArtifactStatement(f, observed, corpus, cov, result));
  }

  /** What such a statement comes to. */
  lemma ArtifactResult(f: Fixture, observed: string, corpus: Corpus, cov: Coverage, result: string)
    requires observed == LABEL_CAUGHT || observed == LABEL_CLEAN
    ensures var p := ArtifactStatement(f, observed, corpus, cov, result).predicate_;
            Recompute.Recomputed(p)
            == if observed == LABEL_CAUGHT then "fail"
               else if cov.outOfScope != map[] || cov.routedElsewhere != map[] then "degraded" else "pass_indirect"
  {
    hide BuiltEnvironment, Recompute.Recomputed;
    var p := ArtifactStatement(f, observed, corpus, cov, result).predicate_;
    BuiltMembers(f);
    LabelsDiffer();
    Recompute.ResultPlainly(p);
    assert BASIS_ARTIFACT[0] != BASIS_SUBSTRATE[0];
    assert p.rows[0].containmentObserved == observed;
    assert Recompute.Fails(p, p.rows[0]) <==> observed == LABEL_CAUGHT;
    assert Recompute.Indirect(p, p.rows[0]) <==> observed == LABEL_CLEAN;
  }

  lemma TokensAdmitted()
    ensures IsResultToken("fail") && IsResultToken("degraded") && IsResultToken("pass_indirect") && IsResultToken("pass")
  {
  }

  /** The statement of BuildArtifactOnly: a caught row, result fail. */
  lemma ArtifactOnlyAccepted(f: Fixture)
    requires FixtureOk(f)
    ensures Accepts(ArtifactStatement(f, LABEL_CAUGHT, CorpusOf(ManifestValue(), CLASSES), COVERAGE, "fail"))
  {
    hide CorpusOk, IntegrityOk, IsResultToken, FixtureOk, ManifestValue, Canon, Accepts;
    OneClass(f, LABEL_CAUGHT, "fail");
    ArtifactResult(f, LABEL_CAUGHT, CorpusOf(ManifestValue(), CLASSES), COVERAGE, "fail");
    TokensAdmitted();
    LabelsDiffer();
    ArtifactAccepted(f, LABEL_CAUGHT, CorpusOf(ManifestValue(), CLASSES), COVERAGE, "fail");
  }

  lemma OneClass(f: Fixture, observed: string, result: string)
    ensures CorpusOk(CorpusOf(ManifestValue(), CLASSES))
    ensures IntegrityOk(ArtifactStatement(f, observed, CorpusOf(ManifestValue(), CLASSES), COVERAGE, result).predicate_, COVERAGE, CLASSES)
  {
    hide Canon, ManifestValue, CorpusOk, BuiltEnvironment, IntegrityOk;
    CorpusBuilt();
    IntegrityBuilt(ArtifactStatement(f, observed, CorpusOf(ManifestValue(), CLASSES), COVERAGE, result));
  }

  /** A clean row of basis artifact under complete coverage: pass_indirect. */
  lemma IndirectAccepted(f: Fixture)
    requires FixtureOk(f)
    ensures Accepts(ArtifactStatement(f, LABEL_CLEAN, CorpusOf(ManifestValue(), CLASSES), COVERAGE, "pass_indirect"))
  {
    hide CorpusOk, IntegrityOk, IsResultToken, FixtureOk, ManifestValue, Canon, Accepts;
    OneClass(f, LABEL_CLEAN, "pass_indirect");
    ArtifactResult(f, LABEL_CLEAN, CorpusOf(ManifestValue(), CLASSES), COVERAGE, "pass_indirect");
    TokensAdmitted();
    LabelsDiffer();
    ArtifactAccepted(f, LABEL_CLEAN, CorpusOf(ManifestValue(), CLASSES), COVERAGE, "pass_indirect");
  }

  /** The same row with a class routed elsewhere: degraded. */
  lemma DegradedAccepted(f: Fixture)
    requires FixtureOk(f)
    ensures Accepts(ArtifactStatement(f, LABEL_CLEAN, CorpusOf(TwoClassManifest(), TWO_CLASSES), ROUTED, "degraded"))
  {
    hide CorpusOk, IntegrityOk, IsResultToken, FixtureOk, TwoClassManifest, Canon, Accepts;
    var corpus := CorpusOf(TwoClassManifest(), TWO_CLASSES);
    var s := ArtifactStatement(f, LABEL_CLEAN, corpus, ROUTED, "degraded");
    TwoClassesBuilt();
    RoutedIntegrity(s, LABEL_CLEAN);
    ArtifactResult(f, LABEL_CLEAN, corpus, ROUTED, "degraded");
    assert ROUTED.routedElsewhere != map[] by { assert OTHER_CLASS in ROUTED.routedElsewhere; }
    TokensAdmitted();
    LabelsDiffer();
    ArtifactAccepted(f, LABEL_CLEAN, corpus, ROUTED, "degraded");
  }
}
