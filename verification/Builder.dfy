/** The producer side (aeetest/build.go): the clean and the caught statement it builds
    are accepted, and the value it signs into a seal is the one the verifier
    recomputes. */
module Builder {
  import opened Core
  import opened Order
  import opened Sorting
  import opened Scan
  import opened Json
  import opened Codec
  import opened Statements
  import opened Payloads
  import opened Rows
  import opened Seals
  import opened Commit
  import Binding
  import Canonical
  import Numbers
  import RoundTrip

  // ----- the seal's observed set -----

  /** The leaves sealedRecord collects from the records passed to it. */
  function BuilderLeaves(observed: seq<Record>): (ls: seq<string>)
    ensures forall i :: 0 <= i < |ls| ==> HexString(ls[i])
  {
    if observed == [] then []
    else
      var before := BuilderLeaves(observed[..|observed| - 1]);
      var leaf := LeafHex(observed[|observed| - 1]);
      if leaf in before then before else before + [leaf]
  }

  function SealDigest(observed: seq<Record>): string {
    SHA256Hex(StringArrayText(SortBy(BuilderLeaves(observed), Self, ByteLess)))
  }

  /** The loop of sealedRecord. */
  method ComputeSeal(observed: seq<Record>) returns (digest: string)
    ensures digest == SealDigest(observed)
  {
    var seen: set<string>, leaves: seq<string> := {}, [];
    assert observed[..0] == [];
    for i := 0 to |observed|
      invariant leaves == BuilderLeaves(observed[..i]) && forall x :: x in seen <==> x in leaves
    {
      assert observed[..i + 1][..i] == observed[..i];
      var leaf := LeafHex(observed[i]);
      if leaf !in seen {
        seen, leaves := seen + {leaf}, leaves + [leaf];
      }
    }
    assert observed[..|observed|] == observed;
    digest := SHA256Hex(StringArrayText(SortBy(leaves, Self, ByteLess)));
  }

  predicate InObserved(observed: seq<Record>, leaf: string) {
    exists i :: 0 <= i < |observed| && LeafHex(observed[i]) == leaf
  }

  lemma {:induction false} BuilderLeavesAre(observed: seq<Record>)
    ensures Distinct(BuilderLeaves(observed))
    ensures forall leaf :: leaf in BuilderLeaves(observed) <==> InObserved(observed, leaf)
  {
    hide LeafHex, HexString;
    if observed != [] {
      var init := observed[..|observed| - 1];
      BuilderLeavesAre(init);
      forall leaf ensures leaf in BuilderLeaves(observed) <==> InObserved(observed, leaf) {
        OneMoreObserved(observed, leaf);
        assert leaf in BuilderLeaves(init) <==> InObserved(init, leaf);
      }
    }
  }

  lemma OneMoreObserved(observed: seq<Record>, leaf: string)
    requires observed != []
    ensures InObserved(observed, leaf) <==>
              InObserved(observed[..|observed| - 1], leaf) || LeafHex(observed[|observed| - 1]) == leaf
  {
    hide LeafHex;
    var init := observed[..|observed| - 1];
    if InObserved(init, leaf) {
      var i :| 0 <= i < |init| && LeafHex(init[i]) == leaf;
      assert observed[i] == init[i];
    }
    if InObserved(observed, leaf) {
      var i :| 0 <= i < |observed| && LeafHex(observed[i]) == leaf;
      assert i < |init| ==> init[i] == observed[i];
    }
  }

  /** The producer's digest is the verifier's recompute, whenever the records handed to
      the seal are the interceptions and examinations the statement carries. */
  lemma SealIsRecompute(p: Predicate, observed: seq<Record>)
    requires forall leaf :: IsObserved(p, leaf) <==> InObserved(observed, leaf)
    ensures SealDigest(observed) == ObservedSetDigest(p)
  {
    hide HexString, IsObserved, InObserved, StringArrayText, SHA256Hex, Observed, BuilderLeaves, SortBy, Utf16Less, ByteLess;
    var ls := BuilderLeaves(observed);
    BuilderLeavesAre(observed);
    HexSortsAlike(ls);
    ObservedSorted(p);
    assert Keys(ls, Self) == ls && Keys(Sort(ls, Self), Self) == Sort(ls, Self);
    SortStrict(ls, Self);
    SortPermutes(ls, Self);
    AscendingUnique(Sort(ls, Self), Sort(Observed(p, |p.records|), Self));
  }

  /** The records of the run stand together in the statement, and no other record is an
      interception or an examination. */
  predicate Appended(p: Predicate, before: seq<Record>, observed: seq<Record>, after: seq<Record>) {
    && p.records == before + observed + after
    && forall i :: 0 <= i < |p.records| ==>
         (ObservedKind(RecordKind(p, i)) <==> |before| <= i < |before| + |observed|)
  }

  /** A seal built over the run's records, appended as the builder appends them, carries
      the digest that the verifier recomputes from the statement. */
  lemma SealOfRun(p: Predicate, before: seq<Record>, observed: seq<Record>, after: seq<Record>)
    requires Appended(p, before, observed, after)
    ensures SealDigest(observed) == ObservedSetDigest(p)
  {
    hide LeafHex, RecordKind, ObservedKind, SealDigest, ObservedSetDigest;
    forall leaf ensures IsObserved(p, leaf) <==> InObserved(observed, leaf) {
      if IsObserved(p, leaf) {
        var i :| 0 <= i < |p.records| && ObservedKind(RecordKind(p, i)) && LeafHex(p.records[i]) == leaf;
        assert observed[i - |before|] == p.records[i];
      }
      if InObserved(observed, leaf) {
        var k :| 0 <= k < |observed| && LeafHex(observed[k]) == leaf;
        assert p.records[|before| + k] == observed[k];
      }
    }
    SealIsRecompute(p, observed);
  }

  // ----- payload objects -----

  /** Values the builder puts in a payload. */
  predicate Flat(v: Value) {
    match v
    case Str(s) => Clean(s)
    case Bool(_) => true
    case Num(n) => n == Numbers.PlainLiteral(0)
    case Arr(items) => forall i :: 0 <= i < |items| ==> items[i].Str? && Clean(items[i].s)
    case _ => false
  }

  predicate FlatMembers(ms: seq<Member>) {
    && StrictlyAscending(Names(ms))
    && forall i :: 0 <= i < |ms| ==> Clean(ms[i].name) && BmpOnly(ms[i].name) && Flat(ms[i].value)
  }

  lemma FlatNormal(v: Value)
    requires Flat(v)
    ensures RoundTrip.Normal(v) == v && WellFormed(v) && Depth(v) <= 1 && BmpNames(v)
  {
    hide Numbers.PlainLiteral, Numbers.CheckSafeInteger, Clean;
    match v
    case Num(n) =>
      Numbers.PlainLiteralAccepted(0);
    case Arr(items) =>
      assert RoundTrip.NormalItems(items) == items;
      FlatItemsDepth(items);
    case _ =>
  }

  lemma {:induction false} FlatItemsDepth(items: seq<Value>)
    requires forall i :: 0 <= i < |items| ==> items[i].Str?
    ensures ItemsDepth(items) == 0
  {
    if items != [] {
      FlatItemsDepth(items[1..]);
    }
  }

  lemma {:induction false} FlatMembersDepth(ms: seq<Member>)
    requires forall i :: 0 <= i < |ms| ==> Depth(ms[i].value) <= 1
    ensures MembersDepth(ms) <= 1
  {
    hide Depth;
    if ms != [] {
      FlatMembersDepth(ms[1..]);
    }
  }

  /** A built payload parses back to its members and is its own canonical form. */
  lemma BuiltPayload(ms: seq<Member>)
    requires FlatMembers(ms)
    ensures ParseJson(Canon(Obj(ms))) == Ok(Obj(ms))
    ensures Canonicalize(Canon(Obj(ms))) == Ok(Canon(Obj(ms)))
    ensures BmpNames(Obj(ms)) && Distinct(Names(ms))
  {
    hide Flat, Clean, StrictlyAscending, Utf16Less, Canon, ParseJson, Canonicalize, RoundTrip.Normal, Sort, BmpOnly;
    forall i | 0 <= i < |ms| ensures FlatValue(ms[i].value) {
      FlatNormal(ms[i].value);
    }
    AscendingDistinct(Names(ms));
    FlatMembersDepth(ms);
    assert WellFormed(Obj(ms));
    assert Depth(Obj(ms)) <= 2;
    Canonical.CanonParsesBack(Obj(ms));
    ObjectNormal(ms);
  }

  predicate FlatValue(v: Value) {
    RoundTrip.Normal(v) == v && WellFormed(v) && Depth(v) <= 1 && BmpNames(v)
  }

  lemma ObjectNormal(ms: seq<Member>)
    requires StrictlyAscending(Names(ms)) && forall i :: 0 <= i < |ms| ==> FlatValue(ms[i].value)
    ensures RoundTrip.Normal(Obj(ms)) == Obj(ms)
  {
    hide StrictlyAscending, Sort, WellFormed, BmpNames, Depth;
    assert RoundTrip.NormalMembers(ms) == ms by {
      var ns := RoundTrip.NormalMembers(ms);
      forall i | 0 <= i < |ms| ensures ns[i] == ms[i] {
        assert FlatValue(ms[i].value);
      }
    }
    SortFixed(ms, NameOf);
  }

  /** The k-th member is found under its name. */
  lemma MemberAt(ms: seq<Member>, k: nat)
    requires Distinct(Names(ms)) && k < |ms|
    ensures MemberOf(Obj(ms), ms[k].name) == Some(ms[k].value)
  {
    hide Distinct, Lookup, HasName;
    UniqueLookup(ms, ms[k]);
  }

  lemma NotAMember(ms: seq<Member>, name: string)
    requires forall i :: 0 <= i < |ms| ==> ms[i].name != name
    ensures MemberOf(Obj(ms), name).None?
  {
  }

  lemma HexIsClean(s: string)
    requires IsLowerHex64(s)
    ensures Clean(s) && HexString(s)
  {
    forall i | 0 <= i < |s| ensures IsLowerHexDigit(s[i]) {
      assert s[i] in s;
    }
  }

  lemma PlainIsClean(s: string)
    requires Binding.PlainName(s)
    ensures Clean(s) && BmpOnly(s)
  {
  }

  lemma LowerHexClean(s: string)
    requires IsLowerHex64(s)
    ensures Flat(Str(s))
  {
    HexIsClean(s);
  }
}
