/** The pure result recompute (aee/recompute.go): a minimum of three conditions. */
module Recompute {
  import opened Core
  import opened Statements

  datatype RowClass = ForcesFail | IndirectClean | DirectClean

  /** classifyRow. */
  function ClassifyRow(row: Row, labels: set<string>, caught: set<string>): RowClass {
    if row.containmentObserved in caught then ForcesFail
    else if row.containmentObserved !in labels then ForcesFail
    else if row.basis != Some(BASIS_SUBSTRATE) && row.basis != Some(BASIS_ARTIFACT) then ForcesFail
    else if row.method_ != Some(METHOD_INTERCEPTED) && row.method_ != Some(METHOD_RECONSTRUCTED) then ForcesFail
    else if row.attribution != Some(ATTRIBUTION_PINNED) && row.attribution != Some(ATTRIBUTION_PAIRED) then ForcesFail
    else if row.basis != Some(BASIS_SUBSTRATE) || row.method_ != Some(METHOD_INTERCEPTED) then IndirectClean
    else DirectClean
  }

  function Labels(p: Predicate): set<string> {
    if p.env.Some? && p.env.value.vocabulary.Some? then set s | s in p.env.value.vocabulary.value.labels else {}
  }

  function Caught(p: Predicate): set<string> {
    if p.env.Some? && p.env.value.vocabulary.Some? then set s | s in p.env.value.vocabulary.value.caught else {}
  }

  predicate SomeRow(rows: seq<Row>, labels: set<string>, caught: set<string>, c: RowClass) {
    exists i :: 0 <= i < |rows| && ClassifyRow(rows[i], labels, caught) == c
  }

  predicate CoverageIncomplete(p: Predicate) {
    p.coverage.Some? && (|p.coverage.value.outOfScope| > 0 || |p.coverage.value.routedElsewhere| > 0)
  }

  /** resultRank: an unknown token is below every known one. */
  function ResultRank(v: string): int {
    if v == RESULT_FAIL then 0
    else if v == RESULT_DEGRADED then 1
    else if v == RESULT_PASS_INDIRECT then 2
    else if v == RESULT_PASS then 3
    else -1
  }

  /** minResult. */
  function MinResult(a: string, b: string): (r: string)
    ensures r == a || r == b
    ensures ResultRank(r) <= ResultRank(a) && ResultRank(r) <= ResultRank(b)
  {
    if ResultRank(b) < ResultRank(a) then b else a
  }

  /** The four tokens and their ranks. */
  lemma Ranks()
    ensures ResultRank(RESULT_FAIL) == 0 && ResultRank(RESULT_DEGRADED) == 1
    ensures ResultRank(RESULT_PASS_INDIRECT) == 2 && ResultRank(RESULT_PASS) == 3
  {
    assert |RESULT_FAIL| == 4 && |RESULT_DEGRADED| == 8 && |RESULT_PASS_INDIRECT| == 13 && |RESULT_PASS| == 4;
    assert RESULT_FAIL[0] != RESULT_PASS[0];
  }

  /** The result of a set of rows under coverage that is or is not complete: the worst
      of what they call for. */
  function ResultOf(rows: seq<Row>, labels: set<string>, caught: set<string>, incomplete: bool): string {
    if SomeRow(rows, labels, caught, ForcesFail) then RESULT_FAIL
    else if incomplete then RESULT_DEGRADED
    else if SomeRow(rows, labels, caught, IndirectClean) then RESULT_PASS_INDIRECT
    else RESULT_PASS
  }

  function Recomputed(p: Predicate): string {
    ResultOf(p.rows, Labels(p), Caught(p), CoverageIncomplete(p))
  }

  /** Recompute. */
  method RunRecompute(p: Predicate) returns (result: string)
    ensures result == Recomputed(p)
  {
    var labels, caught := Labels(p), Caught(p);
    var forcesFail, indirect := false, false;
    for i := 0 to |p.rows|
      invariant forcesFail <==> exists k :: 0 <= k < i && ClassifyRow(p.rows[k], labels, caught) == ForcesFail
      invariant indirect <==> exists k :: 0 <= k < i && ClassifyRow(p.rows[k], labels, caught) == IndirectClean
    {
      match ClassifyRow(p.rows[i], labels, caught)
      case ForcesFail => forcesFail := true;
      case IndirectClean => indirect := true;
      case DirectClean =>
    }
    Ranks();
    result := RESULT_PASS;
    if indirect {
      result := MinResult(result, RESULT_PASS_INDIRECT);
    }
    if CoverageIncomplete(p) {
      result := MinResult(result, RESULT_DEGRADED);
    }
    if forcesFail {
      result := MinResult(result, RESULT_FAIL);
    }
  }

  // ----- laws -----

  /** Over a concatenation of rows the recompute is the worse of the two. */
  lemma ConcatenationIsMinimum(a: seq<Row>, b: seq<Row>, labels: set<string>, caught: set<string>, incomplete: bool)
    ensures ResultOf(a + b, labels, caught, incomplete)
            == MinResult(ResultOf(a, labels, caught, incomplete), ResultOf(b, labels, caught, incomplete))
  {
    hide ClassifyRow;
    Ranks();
    SomeRowEither(a, b, labels, caught, ForcesFail);
    SomeRowEither(a, b, labels, caught, IndirectClean);
  }

  lemma SomeRowEither(a: seq<Row>, b: seq<Row>, labels: set<string>, caught: set<string>, c: RowClass)
    ensures SomeRow(a + b, labels, caught, c) <==> SomeRow(a, labels, caught, c) || SomeRow(b, labels, caught, c)
  {
    hide ClassifyRow;
    if SomeRow(a, labels, caught, c) {
      var i :| 0 <= i < |a| && ClassifyRow(a[i], labels, caught) == c;
      assert (a + b)[i] == a[i];
    }
    if SomeRow(b, labels, caught, c) {
      var i :| 0 <= i < |b| && ClassifyRow(b[i], labels, caught) == c;
      assert (a + b)[|a| + i] == b[i];
    }
  }

  /** A result other than fail leaves no row that forces one; pass leaves only direct
      clean rows and no disclosed gap. */
  lemma ResultMeans(p: Predicate)
    ensures Recomputed(p) != RESULT_FAIL <==>
              forall i :: 0 <= i < |p.rows| ==> !ClassifyRow(p.rows[i], Labels(p), Caught(p)).ForcesFail?
    ensures Recomputed(p) == RESULT_PASS <==>
              (!CoverageIncomplete(p)
               && forall i :: 0 <= i < |p.rows| ==> ClassifyRow(p.rows[i], Labels(p), Caught(p)).DirectClean?)
  {
    hide ClassifyRow;
    Ranks();
  }

  // ----- the result in plain terms -----

  /** The label is one the vocabulary calls caught, or none of its labels. */
  predicate NotClean(p: Predicate, observed: string) {
    p.env.None? || p.env.value.vocabulary.None?
    || observed in p.env.value.vocabulary.value.caught || observed !in p.env.value.vocabulary.value.labels
  }

  /** A row that is not clean, or that one of the closed vocabularies does not know. */
  predicate Fails(p: Predicate, row: Row) {
    || NotClean(p, row.containmentObserved)
    || row.basis !in {Some("substrate"), Some("artifact")}
    || row.method_ !in {Some("intercepted"), Some("reconstructed")}
    || row.attribution !in {Some("pinned"), Some("paired")}
  }

  /** A row that does not fail but is no interception by the substrate. */
  predicate Indirect(p: Predicate, row: Row) {
    !Fails(p, row) && !(row.basis == Some("substrate") && row.method_ == Some("intercepted"))
  }

  predicate Incomplete(p: Predicate) {
    p.coverage.Some? && (p.coverage.value.outOfScope != map[] || p.coverage.value.routedElsewhere != map[])
  }

  predicate SomeFails(p: Predicate) {
    exists i :: 0 <= i < |p.rows| && Fails(p, p.rows[i])
  }

  predicate SomeIndirect(p: Predicate) {
    exists i :: 0 <= i < |p.rows| && Indirect(p, p.rows[i])
  }

  lemma ClassPlainly(p: Predicate, row: Row)
    ensures ClassifyRow(row, Labels(p), Caught(p)).ForcesFail? <==> Fails(p, row)
    ensures ClassifyRow(row, Labels(p), Caught(p)).IndirectClean? <==> Indirect(p, row)
  {
  }

  /** Each of the four results, and exactly when it is the one. */
  lemma ResultPlainly(p: Predicate)
    ensures Recomputed(p) == "fail" <==> SomeFails(p)
    ensures Recomputed(p) == "degraded" <==> !SomeFails(p) && Incomplete(p)
    ensures Recomputed(p) == "pass_indirect" <==> !SomeFails(p) && !Incomplete(p) && SomeIndirect(p)
    ensures Recomputed(p) == "pass" <==> !SomeFails(p) && !Incomplete(p) && !SomeIndirect(p)
    ensures Recomputed(p) in {"fail", "degraded", "pass_indirect", "pass"}
  {
    hide ClassifyRow, Labels, Caught, Fails, Indirect;
    forall i | 0 <= i < |p.rows|
      ensures ClassifyRow(p.rows[i], Labels(p), Caught(p)).ForcesFail? <==> Fails(p, p.rows[i])
      ensures ClassifyRow(p.rows[i], Labels(p), Caught(p)).IndirectClean? <==> Indirect(p, p.rows[i])
    {
      ClassPlainly(p, p.rows[i]);
    }
    Ranks();
  }

  // ----- the Python rail -----

  /** _recompute over the same rows: the minimum of three candidates by rank. */
  method PyRecompute(rows: seq<Row>, labels: set<string>, caught: set<string>, outOfScope: map<string, string>,
    routedElsewhere: map<string, string>) returns (result: string)
    ensures result == ResultOf(rows, labels, caught, |outOfScope| > 0 || |routedElsewhere| > 0)
  {
    var forcesFail, indirect := false, false;
    for i := 0 to |rows|
      invariant forcesFail <==> exists k :: 0 <= k < i && ClassifyRow(rows[k], labels, caught) == ForcesFail
      invariant indirect <==> exists k :: 0 <= k < i && ClassifyRow(rows[k], labels, caught) == IndirectClean
    {
      var r := rows[i];
      if r.containmentObserved !in labels || r.containmentObserved in caught {
        forcesFail := true;
      } else if r.basis != Some(BASIS_SUBSTRATE) && r.basis != Some(BASIS_ARTIFACT) {
        forcesFail := true;
      } else if r.method_ != Some(METHOD_INTERCEPTED) && r.method_ != Some(METHOD_RECONSTRUCTED) {
        forcesFail := true;
      } else if r.attribution != Some(ATTRIBUTION_PINNED) && r.attribution != Some(ATTRIBUTION_PAIRED) {
        forcesFail := true;
      } else if r.basis != Some(BASIS_SUBSTRATE) || r.method_ != Some(METHOD_INTERCEPTED) {
        indirect := true;
      }
    }
    Ranks();
    var candidates := [
      if forcesFail then RESULT_FAIL else RESULT_PASS,
      if |outOfScope| > 0 || |routedElsewhere| > 0 then RESULT_DEGRADED else RESULT_PASS,
      if indirect then RESULT_PASS_INDIRECT else RESULT_PASS];
    result := candidates[0];
    for i := 1 to 3
      invariant result in candidates[..i] && forall k :: 0 <= k < i ==> ResultRank(result) <= ResultRank(candidates[k])
    {
      if ResultRank(candidates[i]) < ResultRank(result) {
        result := candidates[i];
      }
    }
    assert ResultRank(result) <= ResultRank(candidates[0]) && ResultRank(result) <= ResultRank(candidates[1])
           && ResultRank(result) <= ResultRank(candidates[2]);
    assert result == candidates[0] || result == candidates[1] || result == candidates[2];
  }
}
