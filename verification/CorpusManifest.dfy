/** The corpus manifest of GATE 0 (aee/statement.go): its digest, its attack
    identifiers and its expected payloads. */
module CorpusManifest {
  import opened Core
  import opened Order
  import opened Sorting
  import opened Json
  import opened Codec
  import opened Codes
  import opened Statements

  // ----- small sets and maps -----

  /** stringSet. */
  function StringSet(ss: seq<string>): set<string> {
    set s | s in ss
  }

  /** sameStringSet: sizes first, then one inclusion. */
  function SameStringSet(a: set<string>, b: set<string>): (r: bool)
    ensures r <==> a == b
  {
    SameSize(a, b);
    |a| == |b| && a <= b
  }

  lemma SameSize(a: set<string>, b: set<string>)
    ensures |a| == |b| && a <= b <==> a == b
  {
    if a <= b && |a| == |b| {
      assert |b - a| == |b| - |a|;
      assert b == a + (b - a);
    }
  }

  /** sortedKeys. */
  method SortedKeys<V>(m: map<string, V>) returns (keys: seq<string>)
    ensures Distinct(keys) && forall k :: k in keys <==> k in m
  {
    var left, found := m.Keys, [];
    while left != {}
      invariant left <= m.Keys && Distinct(found)
      invariant forall k :: k in found <==> k in m && k !in left
      decreases |left|
    {
      var k :| k in left;
      left, found := left - {k}, found + [k];
    }
    keys := SortBy(found, Self, ByteLess);
    SortByPermutes(found, Self, ByteLess);
    assert Keys(found, Self) == found && Keys(keys, Self) == keys;
    DistinctPermuted(found, keys, Self);
  }

  // ----- the corpus -----

  /** The identifiers of all classes, in the order given for the classes. */
  function Flatten(keys: seq<string>, classes: Classes): seq<string>
    requires forall k :: k in keys ==> k in classes
  {
    if keys == [] then [] else
      assert keys[|keys| - 1] in keys;
      Flatten(keys[..|keys| - 1], classes) + classes[keys[|keys| - 1]]
  }

  predicate Declared(classes: Classes, id: string) {
    exists c :: c in classes && id in classes[c]
  }

  predicate NoAttacks(classes: Classes) {
    forall c :: c in classes ==> classes[c] == []
  }

  /** No identifier stands twice, neither in one class nor in two. */
  predicate EachOnce(classes: Classes) {
    && (forall c :: c in classes ==> Distinct(classes[c]))
    && forall c, d :: c in classes && d in classes && c != d ==> Apart(classes[c], classes[d])
  }

  predicate Apart(a: seq<string>, b: seq<string>) {
    forall i :: 0 <= i < |a| ==> a[i] !in b
  }

  predicate ListedIn(keys: seq<string>, classes: Classes, id: string) {
    exists k :: 0 <= k < |keys| && keys[k] in classes && id in classes[keys[k]]
  }

  lemma {:induction false} FlattenLists(keys: seq<string>, classes: Classes)
    requires forall k :: k in keys ==> k in classes
    ensures forall id :: id in Flatten(keys, classes) <==> ListedIn(keys, classes, id)
  {
    if keys != [] {
      var init, last := keys[..|keys| - 1], keys[|keys| - 1];
      assert last in keys && forall k :: k in init ==> k in keys;
      FlattenLists(init, classes);
      forall id ensures id in Flatten(keys, classes) <==> ListedIn(keys, classes, id) {
        assert id in Flatten(keys, classes) <==> id in Flatten(init, classes) || id in classes[last];
        if ListedIn(init, classes, id) {
          var k :| 0 <= k < |init| && init[k] in classes && id in classes[init[k]];
          assert keys[k] == init[k];
        }
        if ListedIn(keys, classes, id) {
          var k :| 0 <= k < |keys| && keys[k] in classes && id in classes[keys[k]];
          assert k < |init| ==> init[k] == keys[k];
        }
      }
    }
  }

  predicate EachOnceAmong(keys: seq<string>, classes: Classes)
    requires forall k :: k in keys ==> k in classes
  {
    && (forall k :: k in keys ==> Distinct(classes[k]))
    && forall c, d :: c in keys && d in keys && c != d ==> Apart(classes[c], classes[d])
  }

  lemma {:induction false} FlattenDistinct(keys: seq<string>, classes: Classes)
    requires Distinct(keys) && forall k :: k in keys ==> k in classes
    ensures Distinct(Flatten(keys, classes)) <==> EachOnceAmong(keys, classes)
  {
    if keys != [] {
      var init, last := keys[..|keys| - 1], keys[|keys| - 1];
      assert last in keys && forall k :: k in init ==> k in keys;
      assert forall k :: k in keys <==> k in init || k == last;
      FlattenDistinct(init, classes);
      FlattenLists(init, classes);
      var front, back := Flatten(init, classes), classes[last];
      DistinctJoin(front, back);
      if Apart(front, back) {
        forall c | c in init ensures Apart(classes[c], back) && Apart(back, classes[c]) {
          ApartParts(init, classes, c, back);
        }
      }
      if EachOnceAmong(keys, classes) {
        forall i | 0 <= i < |front| ensures front[i] !in back {
          assert ListedIn(init, classes, front[i]);
          var k :| 0 <= k < |init| && init[k] in classes && front[i] in classes[init[k]];
          assert init[k] in init && init[k] != last;
          var j :| 0 <= j < |classes[init[k]]| && classes[init[k]][j] == front[i];
        }
      }
    }
  }

  lemma ApartParts(init: seq<string>, classes: Classes, c: string, back: seq<string>)
    requires forall k :: k in init ==> k in classes
    requires c in init && Apart(Flatten(init, classes), back)
    ensures Apart(classes[c], back) && Apart(back, classes[c])
  {
    FlattenLists(init, classes);
    var front := Flatten(init, classes);
    var k :| 0 <= k < |init| && init[k] == c;
    forall id | id in classes[c] ensures id !in back {
      assert ListedIn(init, classes, id);
      var i :| 0 <= i < |front| && front[i] == id;
    }
  }

  lemma DistinctJoin(a: seq<string>, b: seq<string>)
    ensures Distinct(a + b) <==> Distinct(a) && Distinct(b) && Apart(a, b)
  {
    var ab := a + b;
    if Distinct(ab) {
      forall i, j | 0 <= i < j < |a| ensures a[i] != a[j] {
        assert ab[i] != ab[j];
      }
      forall i, j | 0 <= i < j < |b| ensures b[i] != b[j] {
        assert ab[|a| + i] != ab[|a| + j];
      }
      forall i, j | 0 <= i < |a| && 0 <= j < |b| ensures a[i] != b[j] {
        assert ab[i] != ab[|a| + j];
      }
    }
    if Distinct(a) && Distinct(b) && Apart(a, b) {
      forall i, j | 0 <= i < j < |ab| ensures ab[i] != ab[j] {
        assert i < |a| <= j ==> ab[i] == a[i] && ab[j] in b;
      }
    }
  }

  /** The walk over the classes: how many identifiers they declare, which, and whether
      one came twice. */
  method WalkClasses(classes: Classes, before: CodeList) returns (declared: nat, seen: set<string>, codes: CodeList)
    ensures declared == 0 <==> NoAttacks(classes)
    ensures forall id :: id in seen <==> Declared(classes, id)
    ensures CodeSet(codes) == With(CodeSet(before), !EachOnce(classes), ManifestDuplicateAttack)
  {
    hide EachOnce, CodeSet;
    var keys := SortedKeys(classes);
    declared, seen, codes := 0, {}, before;
    for k := 0 to |keys|
      invariant declared == |Flatten(keys[..k], classes)|
      invariant forall id :: id in seen <==> id in Flatten(keys[..k], classes)
      invariant CodeSet(codes) == With(CodeSet(before), !Distinct(Flatten(keys[..k], classes)), ManifestDuplicateAttack)
    {
      assert keys[..k + 1][..k] == keys[..k] && keys[..k + 1][k] == keys[k] && keys[k] in keys;
      ghost var front := Flatten(keys[..k], classes);
      var ids := classes[keys[k]];
      assert ids[..0] == [] && front + [] == front;
      for i := 0 to |ids|
        invariant declared == |front| + i
        invariant forall id :: id in seen <==> id in front + ids[..i]
        invariant CodeSet(codes) == With(CodeSet(before), !Distinct(front + ids[..i]), ManifestDuplicateAttack)
      {
        ghost var was := front + ids[..i];
        assert front + ids[..i + 1] == was + [ids[i]];
        DistinctJoin(was, [ids[i]]);
        assert Apart(was, [ids[i]]) <==> ids[i] !in was;
        declared := declared + 1;
        if ids[i] in seen {
          codes := AppendCode(codes, ManifestDuplicateAttack);
        }
        seen := seen + {ids[i]};
      }
      assert ids[..|ids|] == ids;
    }
    assert keys[..|keys|] == keys;
    FlattenedAll(keys, classes);
  }

  lemma FlattenedAll(keys: seq<string>, classes: Classes)
    requires Distinct(keys) && forall k :: k in keys <==> k in classes
    ensures forall id :: id in Flatten(keys, classes) <==> Declared(classes, id)
    ensures |Flatten(keys, classes)| == 0 <==> NoAttacks(classes)
    ensures Distinct(Flatten(keys, classes)) <==> EachOnce(classes)
  {
    hide Flatten, Distinct, Declared, Apart, ListedIn;
    FlattenLists(keys, classes);
    FlattenDistinct(keys, classes);
    var flat := Flatten(keys, classes);
    forall id ensures id in flat <==> Declared(classes, id) {
      ListedIsDeclared(keys, classes, id);
    }
    if |flat| > 0 {
      SomeDeclared(classes, flat[0]);
    }
    if c :| c in classes && classes[c] != [] {
      DeclaredIn(classes, c, classes[c][0]);
    }
  }

  lemma ListedIsDeclared(keys: seq<string>, classes: Classes, id: string)
    requires forall k :: k in keys <==> k in classes
    ensures ListedIn(keys, classes, id) <==> Declared(classes, id)
  {
    if Declared(classes, id) {
      var c :| c in classes && id in classes[c];
      var k :| 0 <= k < |keys| && keys[k] == c;
    }
  }

  lemma DeclaredIn(classes: Classes, c: string, id: string)
    requires c in classes && id in classes[c]
    ensures Declared(classes, id)
  {
  }

  lemma SomeDeclared(classes: Classes, id: string)
    requires Declared(classes, id)
    ensures !NoAttacks(classes)
  {
  }

  predicate AllHex64(ss: seq<string>) {
    forall i :: 0 <= i < |ss| ==> IsLowerHex64(ss[i])
  }

  /** An expectedPayloads entry: a declared attack, and a non-empty ascending list of
      digests. */
  predicate PayloadEntryOk(id: string, values: seq<string>, classes: Classes) {
    Declared(classes, id) && values != [] && StrictlyAscending(values) && AllHex64(values)
  }

  predicate PayloadsOk(x: ExpectedPayloads, classes: Classes) {
    match x
    case NoPayloads => true
    case MalformedPayloads => false
    case Payloads(m) => forall id :: id in m ==> PayloadEntryOk(id, m[id], classes)
  }

  /** gate0ExpectedPayloads. */
  method ExpectedPayloadsShape(x: ExpectedPayloads, classes: Classes, declared: set<string>, before: CodeList)
    returns (codes: CodeList)
    requires forall id :: id in declared <==> Declared(classes, id)
    ensures CodeSet(codes) == With(CodeSet(before), !PayloadsOk(x, classes), ManifestExpectedPayloadsMalformed)
  {
    hide CodeSet, StrictlyAscending, Declared, IsLowerHex64;
    codes := before;
    if x.NoPayloads? {
      return;
    }
    if x.MalformedPayloads? {
      codes := AppendCode(codes, ManifestExpectedPayloadsMalformed);
      return;
    }
    var m := x.entries;
    var keys := SortedKeys(m);
    for k := 0 to |keys|
      invariant codes == before
      invariant forall j :: 0 <= j < k ==> keys[j] in m && PayloadEntryOk(keys[j], m[keys[j]], classes)
    {
      var id := keys[k];
      assert id in keys;
      var sorted := IsSortedNoDuplicates(m[id]);
      if id !in declared || |m[id]| == 0 || !sorted {
        assert !PayloadEntryOk(id, m[id], classes);
        codes := AppendCode(codes, ManifestExpectedPayloadsMalformed);
        return;
      }
      for i := 0 to |m[id]|
        invariant codes == before
        invariant forall j :: 0 <= j < i ==> IsLowerHex64(m[id][j])
      {
        var hex := ScanLowerHex64(m[id][i]);
        if !hex {
          assert !PayloadEntryOk(id, m[id], classes);
          codes := AppendCode(codes, ManifestExpectedPayloadsMalformed);
          return;
        }
      }
    }
    forall id | id in m ensures PayloadEntryOk(id, m[id], classes) {
      assert id in keys;
      var j :| 0 <= j < |keys| && keys[j] == id;
    }
  }

  function ClassesOf(c: Corpus): Classes {
    if c.classes.Some? then c.classes.value else map[]
  }

  /** Step 7: the digest commits to the manifest, which declares at least one attack
      and none twice. */
  function CorpusCodes(c: Corpus, acc: set<Code>): set<Code> {
    if c.manifestRaw == [] then With(acc, true, EnvironmentIncomplete)
    else
      match Canonicalize(c.manifestRaw)
      case Err(_) => With(acc, true, StatementMalformed)
      case Ok(canon) =>
        With(With(With(With(acc,
          Sha256Member(c.digest) != SHA256Hex(canon), CorpusDigestMismatch),
          !EachOnce(ClassesOf(c)), ManifestDuplicateAttack),
          NoAttacks(ClassesOf(c)), CorpusManifestNoAttacks),
          !PayloadsOk(c.payloads, ClassesOf(c)), ManifestExpectedPayloadsMalformed)
  }

  method CheckCorpus(c: Corpus, before: CodeList) returns (codes: CodeList)
    ensures CodeSet(codes) == CorpusCodes(c, CodeSet(before))
  {
    hide CodeSet, EachOnce, Declared, PayloadsOk, SHA256Hex, Json.Canonicalize, Canonicalize;
    codes := before;
    if |c.manifestRaw| == 0 {
      codes := AppendCode(codes, EnvironmentIncomplete);
      return;
    }
    var canon := CanonicalizeBytes(c.manifestRaw);
    if canon.Err? {
      codes := AppendCode(codes, StatementMalformed);
      return;
    }
    if Sha256Member(c.digest) != SHA256Hex(canon.value) {
      codes := AppendCode(codes, CorpusDigestMismatch);
    }
    var declared, seen, walked := WalkClasses(ClassesOf(c), codes);
    codes := walked;
    if declared == 0 {
      codes := AppendCode(codes, CorpusManifestNoAttacks);
    }
    codes := ExpectedPayloadsShape(c.payloads, ClassesOf(c), seen, codes);
  }
}
