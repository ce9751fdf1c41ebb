/** RFC 8785 canonicalization as a law: what it forgets, what it keeps, and that it
    is idempotent. */
module Canonical {
  import opened Core
  import opened Order
  import opened Sorting
  import opened Numbers
  import opened Scan
  import opened Json
  import opened RoundTrip
  import opened Parsed

  // ----- the normal form -----

  /** The normal form keeps the value well formed, its depth and its text. */
  lemma {:induction false} NormalKeeps(v: Value)
    requires WellFormed(v)
    ensures WellFormed(Normal(v)) && Depth(Normal(v)) == Depth(v) && Canon(Normal(v)) == Canon(v)
    decreases v, 1
  {
    hide CheckSafeInteger, NumberText, JcsString, Clean, Distinct, Sort, PlainLiteral, IntText;
    match v
    case Num(n) =>
      NormalNumber(n);
    case Arr(items) =>
      NormalItemsKeep(items);
    case Obj(members) =>
      NormalObject(v, members);
    case _ =>
  }

  lemma NormalNumber(n: Number)
    requires CheckSafeInteger(n).SafeInteger?
    ensures WellFormed(Normal(Num(n))) && Canon(Normal(Num(n))) == Canon(Num(n))
  {
    var i := CheckSafeInteger(n).n;
    AcceptedExactly(n);
    PlainLiteralAccepted(i);
    NumberTextIs(n);
    NumberTextIs(PlainLiteral(i));
  }

  lemma {:induction false} NormalItemsKeep(items: seq<Value>)
    requires forall i :: 0 <= i < |items| ==> WellFormed(items[i])
    ensures forall i :: 0 <= i < |items| ==> WellFormed(NormalItems(items)[i])
    ensures ItemsDepth(NormalItems(items)) == ItemsDepth(items)
    ensures CanonItems(NormalItems(items)) == CanonItems(items)
    decreases items, 0
  {
    if items != [] {
      NormalKeeps(items[0]);
      NormalItemsKeep(items[1..]);
      assert NormalItems(items)[1..] == NormalItems(items[1..]);
    }
  }

  lemma {:induction false} NormalMembersKeep(v: Value, ms: seq<Member>)
    requires WellFormed(v) && v.Obj? && forall m :: m in ms ==> m in v.members
    ensures forall i :: 0 <= i < |ms| ==> Clean(ms[i].name) && WellFormed(NormalMembers(ms)[i].value)
    ensures MembersDepth(NormalMembers(ms)) == MembersDepth(ms)
    ensures CanonMembers(NormalMembers(ms)) == CanonMembers(ms)
    decreases v, 0, |ms|
  {
    hide Clean, Distinct, WellFormed, Depth, Canon, Normal;
    if ms != [] {
      assert ms[0] in v.members;
      MemberWellFormed(v, ms[0]);
      NormalKeeps(ms[0].value);
      NormalMembersKeep(v, ms[1..]);
      assert NormalMembers(ms)[1..] == NormalMembers(ms[1..]);
      assert NormalMembers(ms)[0] == NormalEntry(ms[0]);
    }
  }

  lemma MemberWellFormed(v: Value, m: Member)
    requires WellFormed(v) && v.Obj? && m in v.members
    ensures Clean(m.name) && WellFormed(m.value)
  {
  }

  lemma {:induction false} NormalObject(v: Value, members: seq<Member>)
    requires WellFormed(v) && v == Obj(members)
    ensures WellFormed(Normal(v)) && Depth(Normal(v)) == Depth(v) && Canon(Normal(v)) == Canon(v)
    decreases v, 0, |members| + 1
  {
    hide Normal, NormalMembers, Sort, CanonMembers, MembersText, Clean, Depth, Canon;
    var sorted := Sort(members, NameOf);
    SortedMembers(members);
    NormalMembersKeep(v, sorted);
    NormalObjectShape(v, sorted);
    NormalObjectDepth(v, sorted);
    NormalObjectText(v, sorted);
  }

  lemma NormalObjectShape(v: Value, sorted: seq<Member>)
    requires WellFormed(v) && v.Obj? && sorted == Sort(v.members, NameOf)
    requires forall i :: 0 <= i < |sorted| ==> Clean(sorted[i].name) && WellFormed(NormalMembers(sorted)[i].value)
    ensures WellFormed(Normal(v))
  {
    hide Sort, Clean, Distinct, CanonMembers, StrictlyAscending;
    var ns := NormalMembers(sorted);
    CanonSorted(v.members);
    assert Normal(v) == Obj(ns);
    assert Distinct(Names(sorted)) by {
      hide WellFormed, NormalMembers;
      SortedMembers(v.members);
    }
    assert Names(ns) == Names(sorted);
  }

  lemma NormalObjectDepth(v: Value, sorted: seq<Member>)
    requires WellFormed(v) && v.Obj? && sorted == Sort(v.members, NameOf)
    requires MembersDepth(NormalMembers(sorted)) == MembersDepth(sorted)
    ensures Depth(Normal(v)) == Depth(v)
  {
    hide Sort, Clean, Distinct, CanonMembers, MembersDepth, NormalMembers;
    CanonSorted(v.members);
    assert Normal(v) == Obj(NormalMembers(sorted));
    SortPermutes(v.members, NameOf);
    SortedDepth(v.members, sorted);
    SortedDepth(sorted, v.members);
  }

  lemma NormalObjectText(v: Value, sorted: seq<Member>)
    requires WellFormed(v) && v.Obj? && sorted == Sort(v.members, NameOf)
    requires CanonMembers(NormalMembers(sorted)) == CanonMembers(sorted)
    ensures Canon(Normal(v)) == Canon(v)
  {
    hide Sort, Clean, StrictlyAscending, CanonMembers, NormalMembers, MembersText, Distinct;
    var ns := NormalMembers(sorted);
    CanonSorted(v.members);
    assert Normal(v) == Obj(ns);
    SortStrict(v.members, NameOf);
    assert Names(ns) == Names(sorted);
    SortFixed(ns, NameOf);
    CanonSorted(ns);
  }

  // ----- the two values are the same but for member order and number notation -----

  predicate SameValue(v: Value, w: Value)
    decreases v, 0
  {
    match (v, w)
    case (Null, Null) => true
    case (Bool(a), Bool(b)) => a == b
    case (Num(m), Num(n)) => Numbers.Value(m) == Numbers.Value(n)
    case (Str(s), Str(t)) => s == t
    case (Arr(a), Arr(b)) => |a| == |b| && forall i :: 0 <= i < |a| ==> SameValue(a[i], b[i])
    case (Obj(a), Obj(b)) =>
      && (forall i :: 0 <= i < |a| ==> HasPartner(a[i], b))
      && (forall j :: 0 <= j < |b| ==> IsPartner(a, b[j]))
    case _ => false
  }

  /** Some member of b has m's name and the same value. */
  predicate HasPartner(m: Member, b: seq<Member>)
    decreases m.value, 1
  {
    exists j :: 0 <= j < |b| && m.name == b[j].name && SameValue(m.value, b[j].value)
  }

  predicate IsPartner(a: seq<Member>, m: Member)
    decreases a, 1
  {
    exists i :: 0 <= i < |a| && a[i].name == m.name && SameValue(a[i].value, m.value)
  }

  /** The same value has one normal form. */
  lemma {:induction false} SameNormal(v: Value, w: Value)
    requires WellFormed(v) && WellFormed(w) && SameValue(v, w)
    ensures Normal(v) == Normal(w)
    decreases v, 0
  {
    hide CheckSafeInteger, Clean, Distinct, Sort, PlainLiteral, Numbers.Value, HasPartner, IsPartner;
    match (v, w)
    case (Num(m), Num(n)) =>
      AcceptedExactly(m);
      AcceptedExactly(n);
    case (Arr(a), Arr(b)) =>
      forall i | 0 <= i < |a| ensures Normal(a[i]) == Normal(b[i]) {
        SameNormal(a[i], b[i]);
      }
      assert NormalItems(a) == NormalItems(b);
    case (Obj(a), Obj(b)) =>
      forall x ensures x in NormalMembers(a) <==> x in NormalMembers(b) {
        if x in NormalMembers(a) {
          var i :| 0 <= i < |a| && NormalMembers(a)[i] == x;
          PartnerNormal(v, w, i);
        }
        if x in NormalMembers(b) {
          var j :| 0 <= j < |b| && NormalMembers(b)[j] == x;
          PartnerOfNormal(v, w, j);
        }
      }
      SameSorted(a, b);
    case _ =>
  }

  lemma {:induction false} PartnerNormal(v: Value, w: Value, i: nat)
    requires WellFormed(v) && WellFormed(w) && SameValue(v, w) && v.Obj? && w.Obj? && i < |v.members|
    ensures NormalEntry(v.members[i]) in NormalMembers(w.members)
    decreases v.members[i].value, 1
  {
    hide Clean, Distinct, Normal, IsPartner;
    var a, b := v.members, w.members;
    assert HasPartner(a[i], b);
    var j :| 0 <= j < |b| && a[i].name == b[j].name && SameValue(a[i].value, b[j].value);
    SameNormal(a[i].value, b[j].value);
    assert NormalMembers(b)[j] == NormalEntry(a[i]);
  }

  lemma {:induction false} PartnerOfNormal(v: Value, w: Value, j: nat)
    requires WellFormed(v) && WellFormed(w) && SameValue(v, w) && v.Obj? && w.Obj? && j < |w.members|
    ensures NormalEntry(w.members[j]) in NormalMembers(v.members)
    decreases v.members, 1
  {
    hide Clean, Distinct, Normal, HasPartner;
    var a, b := v.members, w.members;
    assert IsPartner(a, b[j]);
    var i :| 0 <= i < |a| && a[i].name == b[j].name && SameValue(a[i].value, b[j].value);
    SameNormal(a[i].value, b[j].value);
    assert NormalMembers(a)[i] == NormalEntry(b[j]);
  }

  lemma SameSorted(a: seq<Member>, b: seq<Member>)
    requires Distinct(Names(a)) && Distinct(Names(b))
    requires forall x :: x in NormalMembers(a) <==> x in NormalMembers(b)
    ensures Sort(NormalMembers(a), NameOf) == Sort(NormalMembers(b), NameOf)
  {
    hide Normal;
    assert Names(NormalMembers(a)) == Names(a) && Names(NormalMembers(b)) == Names(b);
    SortStrict(NormalMembers(a), NameOf);
    SortStrict(NormalMembers(b), NameOf);
    SortPermutes(NormalMembers(a), NameOf);
    SortPermutes(NormalMembers(b), NameOf);
    SortedUnique(Sort(NormalMembers(a), NameOf), Sort(NormalMembers(b), NameOf), NameOf);
  }

  /** One normal form comes from the same value. */
  lemma {:induction false} NormalSame(v: Value, w: Value)
    requires WellFormed(v) && WellFormed(w) && Normal(v) == Normal(w)
    ensures SameValue(v, w)
    decreases v, 0
  {
    hide CheckSafeInteger, Clean, Distinct, Sort, PlainLiteral, Numbers.Value, HasPartner, IsPartner;
    match (v, w)
    case (Num(m), Num(n)) =>
      AcceptedExactly(m);
      AcceptedExactly(n);
    case (Arr(a), Arr(b)) =>
      assert |NormalItems(a)| == |NormalItems(b)|;
      forall i | 0 <= i < |a| ensures SameValue(a[i], b[i]) {
        assert NormalItems(a)[i] == NormalItems(b)[i];
        NormalSame(a[i], b[i]);
      }
    case (Obj(a), Obj(b)) =>
      NormalMembersAgree(a, b);
      forall i | 0 <= i < |a| ensures HasPartner(a[i], b) {
        FindPartner(v, w, i);
      }
      forall j | 0 <= j < |b| ensures IsPartner(a, b[j]) {
        FindPartnerOf(v, w, j);
      }
    case _ =>
  }

  lemma NormalMembersAgree(a: seq<Member>, b: seq<Member>)
    requires Sort(NormalMembers(a), NameOf) == Sort(NormalMembers(b), NameOf)
    ensures forall x :: x in NormalMembers(a) <==> x in NormalMembers(b)
  {
    SortPermutes(NormalMembers(a), NameOf);
    SortPermutes(NormalMembers(b), NameOf);
  }

  lemma {:induction false} FindPartner(v: Value, w: Value, i: nat)
    requires WellFormed(v) && WellFormed(w) && v.Obj? && w.Obj? && i < |v.members|
    requires forall x :: x in NormalMembers(v.members) <==> x in NormalMembers(w.members)
    ensures HasPartner(v.members[i], w.members)
    decreases v.members[i].value, 1
  {
    hide Clean, Distinct, Normal, SameValue;
    var a, b := v.members, w.members;
    assert NormalMembers(a)[i] in NormalMembers(a);
    var j :| 0 <= j < |b| && NormalMembers(b)[j] == NormalMembers(a)[i];
    NormalSame(a[i].value, b[j].value);
  }

  lemma {:induction false} FindPartnerOf(v: Value, w: Value, j: nat)
    requires WellFormed(v) && WellFormed(w) && v.Obj? && w.Obj? && j < |w.members|
    requires forall x :: x in NormalMembers(v.members) <==> x in NormalMembers(w.members)
    ensures IsPartner(v.members, w.members[j])
    decreases v.members, 1
  {
    hide Clean, Distinct, Normal, SameValue;
    var a, b := v.members, w.members;
    assert NormalMembers(b)[j] in NormalMembers(b);
    var i :| 0 <= i < |a| && NormalMembers(a)[i] == NormalMembers(b)[j];
    NormalSame(a[i].value, b[j].value);
  }

  // ----- the laws -----

  /** Parsing canonical text gives the value back, up to member order and number
      notation. */
  lemma CanonParsesBack(v: Value)
    requires WellFormed(v) && Depth(v) <= MAX_DEPTH
    ensures ParseJson(Canon(v)) == Ok(Normal(v)) && SameValue(v, Normal(v))
    ensures Canonicalize(Canon(v)) == Ok(Canon(v))
  {
    ParseCanon(v, [], 0, MAX_DEPTH);
    CanonPassed(v, []);
    assert Canon(v) + [] == Canon(v);
    NormalKeeps(v);
    NormalTwice(v);
    NormalSame(v, Normal(v));
    ParsedWritable(Canon(v));
  }

  lemma NormalTwice(v: Value)
    requires WellFormed(v)
    ensures Normal(Normal(v)) == Normal(v)
  {
    NormalKeeps(v);
    ParseCanon(v, [], 0, Depth(v));
    ParseCanon(Normal(v), [], 0, Depth(v));
  }

  /** Canonicalize is idempotent on every input it accepts. */
  lemma CanonicalizeIdempotent(raw: bytes)
    requires Canonicalize(raw).Ok?
    ensures Canonicalize(Canonicalize(raw).value) == Canonicalize(raw)
  {
    ParseJsonWellFormed(raw, MAX_DEPTH);
    CanonParsesBack(ParseJson(raw).value);
  }

  /** Two values are written alike exactly when they differ at most in member order
      and number notation. */
  lemma CanonEqualIffSame(v: Value, w: Value)
    requires WellFormed(v) && WellFormed(w)
    ensures Canon(v) == Canon(w) <==> SameValue(v, w)
  {
    NormalKeeps(v);
    NormalKeeps(w);
    if SameValue(v, w) {
      SameNormal(v, w);
    }
    if Canon(v) == Canon(w) {
      var limit := Max(Depth(v), Depth(w));
      ParseCanon(v, [], 0, limit);
      ParseCanon(w, [], 0, limit);
      NormalSame(v, w);
    }
  }

  /** Two documents canonicalize to the same bytes exactly when they parse to the
      same value; every accepted document does canonicalize. */
  lemma CanonicalizeDecidesSameness(a: bytes, b: bytes)
    requires ParseJson(a).Ok? && ParseJson(b).Ok?
    ensures Canonicalize(a).Ok? && Canonicalize(b).Ok?
    ensures Canonicalize(a) == Canonicalize(b) <==> SameValue(ParseJson(a).value, ParseJson(b).value)
  {
    ParseJsonWellFormed(a, MAX_DEPTH);
    ParseJsonWellFormed(b, MAX_DEPTH);
    ParsedWritable(a);
    ParsedWritable(b);
    CanonEqualIffSame(ParseJson(a).value, ParseJson(b).value);
  }

  /** Reordering the members of an object never changes the output. */
  lemma MemberOrderForgotten(a: seq<Member>, b: seq<Member>)
    requires WellFormed(Obj(a)) && multiset(a) == multiset(b)
    ensures Canon(Obj(a)) == Canon(Obj(b))
  {
    CanonSorted(a);
    CanonSorted(b);
    SortForgetsOrder(a, b, NameOf);
  }
}
