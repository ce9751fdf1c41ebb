/** RFC 8785 canonical texts told on the concrete syntax trees of the JSON grammar: they
    are exactly the texts that canonicalization leaves as they are. */
module CanonicalForm {
  import opened Core
  import opened Order
  import opened Sorting
  import opened Numbers
  import opened Scan
  import opened Json
  import opened RoundTrip
  import opened Syntax
  import opened Documents
  import opened Parsed
  import Canonical
  import Spellings

  // ----- the form -----

  /** The body spells each character of some string with its shortest spelling. */
  ghost predicate Shortest(body: bytes) {
    exists s :: WrittenShort(body, s)
  }

  ghost predicate WrittenShort(body: bytes, s: string)
    decreases |s|
  {
    if s == [] then body == []
    else exists k :: 0 <= k <= |body| && ShortFor(s[0], body[..k]) && WrittenShort(body[k..], s[1..])
  }

  /** A spelling of c with figures in lower case, none shorter than it. */
  ghost predicate ShortFor(c: char, t: bytes) {
    && Spellings.Spelling(c, t) && Spellings.Lower(t)
    && forall u: bytes :: Spellings.Spelling(c, u) ==> |t| <= |u|
  }

  /** No white space, numbers as plain integers and zero without a sign, shortest
      spellings, names ascending by UTF-16 code units. */
  ghost predicate CanonicalTree(t: Tree) {
    match t
    case NumberTree(n) => n.frac.None? && n.exp.None? && (n.neg ==> n.whole != [0x30])
    case StringTree(body) => Shortest(body)
    case ArrayTree(blank, items) =>
      blank == [] && forall i :: 0 <= i < |items| ==>
        items[i].before == [] && items[i].after == [] && CanonicalTree(items[i].value)
    case ObjectTree(blank, pairs) =>
      && blank == []
      && (forall i :: 0 <= i < |pairs| ==>
            && pairs[i].before == [] && pairs[i].middle == [] && Shortest(pairs[i].name)
            && pairs[i].value.before == [] && pairs[i].value.after == [] && CanonicalTree(pairs[i].value.value))
      && forall i, j :: 0 <= i < j < |pairs| ==> UnitsBefore(Unquote(pairs[i].name), Unquote(pairs[j].name))
    case _ => true
  }

  /** The UTF-16 code units of a string. */
  function UnitsOf(s: string): seq<int> {
    if s == [] then []
    else
      var n := s[0] as int;
      (if n <= 0xFFFF then [n] else [0xD7C0 + n / 0x400, 0xDC00 + n % 0x400]) + UnitsOf(s[1..])
  }

  /** At the first place where the units differ a has the smaller one, or it ends. */
  ghost predicate UnitsBefore(a: string, b: string) {
    var x, y := UnitsOf(a), UnitsOf(b);
    exists k :: FirstApart(x, y, k) && (k == |x| || x[k] < y[k])
  }

  predicate FirstApart(x: seq<int>, y: seq<int>, k: int) {
    0 <= k <= |x| && k < |y| && x[..k] == y[..k] && (k < |x| ==> x[k] != y[k])
  }

  // ----- the order -----

  lemma {:induction false} UnitsAre(s: string)
    ensures UnitsOf(s) == Utf16(s)
  {
    if s != [] {
      UnitsAre(s[1..]);
    }
  }

  lemma FirstShared(x: seq<int>, y: seq<int>, k: int)
    requires FirstApart(x, y, k) && k > 0
    ensures x[0] == y[0]
  {
    assert x[0] == x[..k][0] && y[0] == y[..k][0];
  }

  lemma {:induction false} LexIsFirstApart(x: seq<int>, y: seq<int>)
    ensures LexLess(x, y) <==> exists k :: FirstApart(x, y, k) && (k == |x| || x[k] < y[k])
  {
    if y == [] {
    } else if x == [] || x[0] != y[0] {
      assert x[..0] == y[..0];
      assert FirstApart(x, y, 0);
      forall k | FirstApart(x, y, k) ensures k == 0 {
        if k > 0 && x != [] {
          FirstShared(x, y, k);
        }
      }
    } else {
      LexIsFirstApart(x[1..], y[1..]);
      if LexLess(x[1..], y[1..]) {
        var k :| FirstApart(x[1..], y[1..], k) && (k == |x[1..]| || x[1..][k] < y[1..][k]);
        assert x[..k + 1] == [x[0]] + x[1..][..k] && y[..k + 1] == [y[0]] + y[1..][..k];
        assert FirstApart(x, y, k + 1);
      }
      if k :| FirstApart(x, y, k) && (k == |x| || x[k] < y[k]) {
        assert x[1..][..k - 1] == x[..k][1..] && y[1..][..k - 1] == y[..k][1..];
        assert FirstApart(x[1..], y[1..], k - 1);
      }
    }
  }

  /** The order of the writer. */
  lemma UnitsBeforeIs(a: string, b: string)
    ensures UnitsBefore(a, b) <==> Utf16Less(a, b)
  {
    hide LexLess;
    UnitsAre(a);
    UnitsAre(b);
    LexIsFirstApart(Utf16(a), Utf16(b));
  }

  // ----- the strings -----

  lemma ShortIs(c: char, t: bytes)
    ensures ShortFor(c, t) <==> t == JcsChar(c)
  {
    hide Spellings.Spelling, Spellings.Lower, JcsChar;
    forall u: bytes | Spellings.Spelling(c, u) ensures |JcsChar(c)| <= |u| {
      Spellings.CanonicalIsShortest(c, u);
    }
    JcsSpells(c);
    if ShortFor(c, t) {
      Spellings.CanonicalIsShortest(c, t);
    }
  }

  lemma JcsSpells(c: char)
    ensures Spellings.Spelling(c, JcsChar(c)) && Spellings.Lower(JcsChar(c))
  {
    hide Spellings.Spelling, Spellings.Lower, JcsChar;
    Spellings.UnitSpells(JcsUnit(c));
    assert UnitText(JcsUnit(c)) == JcsChar(c) && UnitChar(JcsUnit(c)) == c;
    Spellings.CanonicalIsShortest(c, JcsChar(c));
  }

  lemma {:induction false} WrittenIs(body: bytes, s: string)
    ensures WrittenShort(body, s) <==> body == JcsChars(s)
    decreases |s|
  {
    hide ShortFor, JcsChar;
    if s != [] {
      if WrittenShort(body, s) {
        var k :| 0 <= k <= |body| && ShortFor(s[0], body[..k]) && WrittenShort(body[k..], s[1..]);
        ShortIs(s[0], body[..k]);
        WrittenIs(body[k..], s[1..]);
        assert body == body[..k] + body[k..];
      }
      if body == JcsChars(s) {
        var k := |JcsChar(s[0])|;
        assert body[..k] == JcsChar(s[0]) && body[k..] == JcsChars(s[1..]);
        ShortIs(s[0], body[..k]);
        WrittenIs(body[k..], s[1..]);
      }
    }
  }

  lemma ShortestIs(body: bytes)
    ensures Shortest(body) <==> body == JcsChars(Unquote(body))
  {
    hide WrittenShort, JcsChars, Unquote;
    if Shortest(body) {
      var s :| WrittenShort(body, s);
      WrittenIs(body, s);
      JcsReadsBack(s, []);
    }
    WrittenIs(body, Unquote(body));
  }

  // ----- the numbers -----

  lemma LastDigit(n: nat, d: int)
    requires n > 0 && 0 <= d < 10
    ensures DecText(10 * n + d) == DecText(n) + [d + 0x30]
  {
    assert (10 * n + d) / 10 == n && (10 * n + d) % 10 == d;
  }

  lemma {:induction false} DecOfDigits(ds: bytes)
    requires ds != [] && AllDigits(ds) && (ds[0] == 0x30 ==> |ds| == 1)
    ensures DecText(DigitsValue(ds)) == ds && (DigitsValue(ds) == 0 <==> ds == [0x30])
    decreases |ds|
  {
    var init, last := ds[..|ds| - 1], ds[|ds| - 1];
    assert last in ds;
    if init == [] {
      assert ds == [last] && DigitsValue(init) == 0;
    } else {
      assert init[0] == ds[0];
      DecOfDigits(init);
      assert ds == init + [last];
      LastDigit(DigitsValue(init), last - 0x30);
    }
  }

  lemma NumberWritten(n: Number)
    requires CheckSafeInteger(n).SafeInteger? && CanonicalTree(NumberTree(n))
    ensures NumberText(n) == TokenText(n)
  {
    hide CheckSafeInteger, DigitsValue, DecText;
    NumberTextIs(n);
    AcceptedExactly(n);
    PlainNotationValue(n);
    var i := CheckSafeInteger(n).n;
    IntegerOfValue(n, i);
    assert i == Signed(n.neg, DigitsValue(n.whole));
    DecOfDigits(n.whole);
    var t := n.whole;
    assert t + [] == t;
  }

  // ----- the text of a canonical tree is what is written for its value -----

  lemma {:induction false} TreeWritten(t: Tree)
    requires TreeOk(t) && CanonicalTree(t) && WellFormed(Means(t))
    ensures Canon(Means(t)) == TreeText(t)
    decreases t, 1
  {
    hide Shortest, TokenText, NumberText, JcsChars, Unquote, StringBody, CheckSafeInteger, Clean, UnitsBefore, DocText, FurtherItems,
      FurtherPairs, PairText, Sort, NumberToken, LiteralOk, ItemsText, MembersText, Blank;
    NoText();
    match t
    case NumberTree(n) =>
      TokenRule(n);
      NumberWritten(n);
    case StringTree(body) =>
      ShortestIs(body);
    case ArrayTree(_, items) =>
      MeansItemsAt(items);
      ItemsWritten(items);
    case ObjectTree(_, pairs) =>
      MeansPairsAt(pairs);
      PairsWritten(pairs);
      PairsAscend(pairs);
    case _ =>
  }

  predicate BareItem(d: Doc) {
    d.before == [] && d.after == []
  }

  lemma BareText(d: Doc)
    requires BareItem(d)
    ensures DocText(d) == TreeText(d.value)
  {
    hide TreeText;
  }

  lemma NoText()
    ensures forall first :: ItemsText([], first) == [] && MembersText([], first) == []
  {
  }

  lemma ItemsTextSplit(ts: seq<bytes>)
    requires ts != []
    ensures var more := ItemsText(ts[1..], false) + [CLOSE_BRACKET];
            && ItemsText(ts, true) + [CLOSE_BRACKET] == ts[0] + more
            && ItemsText(ts, false) + [CLOSE_BRACKET] == [COMMA] + (ts[0] + more)
  {
    hide ItemsText;
    var tail, close := ItemsText(ts[1..], false), [CLOSE_BRACKET];
    FirstItemText(ts, true);
    FirstItemText(ts, false);
    Regroup([], ts[0], tail, close);
    Regroup([COMMA], ts[0], tail, close);
    assert [] + (ts[0] + (tail + close)) == ts[0] + (tail + close);
  }

  lemma FirstMember(ts: seq<Entry<bytes>>, first: bool)
    requires ts != []
    ensures MembersText(ts, first)
            == (if first then [] else [COMMA]) + JcsString(ts[0].name) + [COLON] + ts[0].value + MembersText(ts[1..], false)
  {
  }

  lemma MembersTextSplit(ts: seq<Entry<bytes>>)
    requires ts != []
    ensures var text, more := JcsString(ts[0].name) + [COLON] + ts[0].value, MembersText(ts[1..], false) + [CLOSE_BRACE];
            && MembersText(ts, true) + [CLOSE_BRACE] == text + more
            && MembersText(ts, false) + [CLOSE_BRACE] == [COMMA] + (text + more)
  {
    hide JcsString, MembersText;
    var name, value, tail := JcsString(ts[0].name), ts[0].value, MembersText(ts[1..], false);
    var close := [CLOSE_BRACE];
    FirstMember(ts, true);
    FirstMember(ts, false);
    RegroupSix([], name, [COLON], value, tail, close);
    RegroupSix([COMMA], name, [COLON], value, tail, close);
    Regroup(name, [COLON], value, tail + close);
    var grouped := name + ([COLON] + (value + (tail + close)));
    assert [] + grouped == grouped;
  }

  lemma {:induction false} ItemsWritten(items: seq<Doc>)
    requires forall i :: 0 <= i < |items| ==>
               DocOk(items[i]) && TreeOk(items[i].value) && BareItem(items[i]) && CanonicalTree(items[i].value)
               && WellFormed(Means(items[i].value))
    ensures items != [] ==>
              ItemsText(CanonItems(MeansItems(items)), true) + [CLOSE_BRACKET] == DocText(items[0]) + FurtherItems(items[1..])
    ensures ItemsText(CanonItems(MeansItems(items)), false) + [CLOSE_BRACKET] == FurtherItems(items)
    decreases items, 0
  {
    hide CanonicalTree, WellFormed, TreeText, Canon, Means, DocText, ItemsText;
    NoText();
    if items != [] {
      TreeWritten(items[0].value);
      ItemsWritten(items[1..]);
      var ts := CanonItems(MeansItems(items));
      var text := TreeText(items[0].value);
      assert MeansItems(items)[1..] == MeansItems(items[1..]);
      assert ts[0] == text && ts[1..] == CanonItems(MeansItems(items[1..]));
      BareText(items[0]);
      ItemsTextSplit(ts);
    }
  }

  predicate BarePair(p: Named) {
    p.before == [] && p.middle == [] && BareItem(p.value)
  }

  lemma PairWritten(p: Named)
    requires BarePair(p) && p.name == JcsChars(Unquote(p.name))
    ensures PairText(p) == JcsString(Unquote(p.name)) + [COLON] + TreeText(p.value.value)
  {
    hide JcsChars, Unquote, TreeText;
    assert DocText(p.value) == TreeText(p.value.value);
    assert JcsString(Unquote(p.name)) == [0x22] + p.name + [0x22];
  }

  lemma {:induction false} PairsWritten(pairs: seq<Named>)
    requires forall i :: 0 <= i < |pairs| ==>
               PairOk(pairs[i]) && DocOk(pairs[i].value) && TreeOk(pairs[i].value.value) && BarePair(pairs[i])
               && Shortest(pairs[i].name) && CanonicalTree(pairs[i].value.value) && WellFormed(Means(pairs[i].value.value))
    ensures MembersText(CanonMembers(MeansPairs(pairs)), false) + [CLOSE_BRACE] == FurtherPairs(pairs)
    ensures pairs != [] ==>
              MembersText(CanonMembers(MeansPairs(pairs)), true) + [CLOSE_BRACE] == PairText(pairs[0]) + FurtherPairs(pairs[1..])
    decreases pairs, 0
  {
    hide CanonicalTree, WellFormed, TreeText, Canon, Means, JcsString, PairText, Unquote, StringBody, Shortest, JcsChars,
      MembersText;
    NoText();
    if pairs != [] {
      var p := pairs[0];
      TreeWritten(p.value.value);
      ShortestIs(p.name);
      PairWritten(p);
      PairsWritten(pairs[1..]);
      var ms := MeansPairs(pairs);
      var ts := CanonMembers(ms);
      assert ms[0] == Entry(Unquote(p.name), Means(p.value.value)) && ms[1..] == MeansPairs(pairs[1..]);
      assert ts[0] == Entry(ms[0].name, Canon(ms[0].value)) && ts[1..] == CanonMembers(ms[1..]);
      MembersTextSplit(ts);
    }
  }

  /** The members of a canonical object are in the order of the writer. */
  lemma PairsAscend(pairs: seq<Named>)
    requires (forall i :: 0 <= i < |pairs| ==> PairOk(pairs[i]))
    requires forall i, j :: 0 <= i < j < |pairs| ==> UnitsBefore(Unquote(pairs[i].name), Unquote(pairs[j].name))
    ensures Sort(CanonMembers(MeansPairs(pairs)), NameOf) == CanonMembers(MeansPairs(pairs))
  {
    hide Sort, CanonMembers, Unquote, UnitsBefore, Utf16Less, StringBody, Means;
    var ms := MeansPairs(pairs);
    MeansPairsAt(pairs);
    var names := Names(ms);
    forall i, j | 0 <= i < j < |names| ensures Utf16Less(names[i], names[j]) {
      UnitsBeforeIs(names[i], names[j]);
    }
    SortFixed(ms, NameOf);
    CanonSorted(ms);
  }

  // ----- every normal form is what a canonical tree stands for -----

  /** The tree of a value, its members in the order they have. */
  function Compact(v: Value): Tree
    decreases v, 1
  {
    match v
    case Null => NullTree
    case Bool(b) => if b then TrueTree else FalseTree
    case Num(n) => NumberTree(n)
    case Str(s) => StringTree(JcsChars(s))
    case Arr(items) => ArrayTree([], CompactItems(items))
    case Obj(members) => ObjectTree([], CompactPairs(members))
  }

  function CompactItems(items: seq<Value>): seq<Doc>
    decreases items, 0
  {
    if items == [] then [] else [Doc([], Compact(items[0]), [])] + CompactItems(items[1..])
  }

  function CompactPairs(members: seq<Member>): seq<Named>
    decreases members, 0
  {
    if members == [] then []
    else [Named([], JcsChars(members[0].name), [], Doc([], Compact(members[0].value), []))] + CompactPairs(members[1..])
  }

  /** Plain integers and ascending names at every depth. */
  predicate Orderly(v: Value) {
    match v
    case Num(n) => n.frac.None? && n.exp.None? && (n.neg ==> n.whole != [0x30])
    case Arr(items) => forall i :: 0 <= i < |items| ==> Orderly(items[i])
    case Obj(members) => StrictlyAscending(Names(members)) && forall i :: 0 <= i < |members| ==> Orderly(members[i].value)
    case _ => true
  }

  lemma StringWritten(s: string)
    ensures StringBody(JcsChars(s)) && Shortest(JcsChars(s)) && Unquote(JcsChars(s)) == s
  {
    hide JcsChars, Unquote, StringBody, Shortest, LexBody;
    var body := JcsChars(s);
    JcsReadsBack(s, []);
    ShortestIs(body);
    LexedBody(body + [QUOTE] + []);
    assert (body + [QUOTE] + [])[..|body|] == body;
  }

  lemma {:induction false} CompactStands(v: Value)
    requires Orderly(v)
    ensures var t := Compact(v); TreeOk(t) && Means(t) == v && CanonicalTree(t)
    decreases v, 1
  {
    hide JcsChars, Unquote, StringBody, Shortest, UnitsBefore, Utf16Less, LiteralOk, NumberToken;
    match v
    case Num(n) =>
      TokenRule(n);
    case Str(s) =>
      StringWritten(s);
    case Arr(items) =>
      ItemsStand(items);
    case Obj(members) =>
      PairsStand(members);
      forall i, j | 0 <= i < j < |members| ensures UnitsBefore(members[i].name, members[j].name) {
        UnitsBeforeIs(members[i].name, members[j].name);
        assert Names(members)[i] == members[i].name && Names(members)[j] == members[j].name;
      }
    case _ =>
  }

  lemma {:induction false} ItemsStand(items: seq<Value>)
    requires forall i :: 0 <= i < |items| ==> Orderly(items[i])
    ensures var ds := CompactItems(items);
            && |ds| == |items|
            && (forall i :: 0 <= i < |ds| ==>
                  DocOk(ds[i]) && ds[i].before == [] && ds[i].after == [] && CanonicalTree(ds[i].value))
            && MeansItems(ds) == items
    decreases items, 0
  {
    hide Compact, CanonicalTree, Means;
    if items != [] {
      CompactStands(items[0]);
      ItemsStand(items[1..]);
      var first := Doc([], Compact(items[0]), []);
      FirstItem(first, CompactItems(items[1..]));
    }
  }

  lemma {:induction false} PairsStand(members: seq<Member>)
    requires forall i :: 0 <= i < |members| ==> Orderly(members[i].value)
    ensures var ps := CompactPairs(members);
            && |ps| == |members|
            && (forall i :: 0 <= i < |ps| ==>
                  && PairOk(ps[i]) && ps[i].before == [] && ps[i].middle == [] && Shortest(ps[i].name)
                  && ps[i].value.before == [] && ps[i].value.after == [] && CanonicalTree(ps[i].value.value)
                  && Unquote(ps[i].name) == members[i].name)
            && MeansPairs(ps) == members
    decreases members, 0
  {
    hide Compact, CanonicalTree, Means, Unquote, Shortest, StringBody, JcsChars;
    if members != [] {
      CompactStands(members[0].value);
      StringWritten(members[0].name);
      PairsStand(members[1..]);
      var first := Named([], JcsChars(members[0].name), [], Doc([], Compact(members[0].value), []));
      assert PairOk(first) && DocOk(first.value);
      FirstPair(first, CompactPairs(members[1..]));
    }
  }

  lemma {:induction false} NormalOrderly(v: Value)
    requires WellFormed(v)
    ensures Orderly(Normal(v))
  {
    hide Sort, Utf16Less, Distinct, Clean, CheckSafeInteger, IntText;
    match v
    case Num(n) =>
      PlainOrderly(CheckSafeInteger(n).n);
    case Arr(items) =>
      forall i | 0 <= i < |items| ensures Orderly(NormalItems(items)[i]) {
        NormalOrderly(items[i]);
      }
    case Obj(members) =>
      var ns := NormalMembers(members);
      var sorted := Sort(ns, NameOf);
      assert Names(ns) == Names(members);
      SortStrict(ns, NameOf);
      SortPermutes(ns, NameOf);
      forall i | 0 <= i < |members| ensures Orderly(ns[i].value) {
        NormalOrderly(members[i].value);
      }
      forall k | 0 <= k < |sorted| ensures Orderly(sorted[k].value) {
        assert sorted[k] in ns;
      }
    case _ =>
  }

  lemma PlainOrderly(i: int)
    ensures Orderly(Num(PlainLiteral(i)))
  {
    if i < 0 {
      assert DecText(-i) != [0x30] by {
        assert DigitsValue(DecText(-i)) == -i;
      }
    }
  }

  // ----- the fixed points of canonicalization -----

  /** Canonicalization answers the text of a canonical tree, and leaves exactly those
      texts as they are: of all texts of a value it picks the one in that form. */
  lemma CanonicalTexts(c: bytes)
    ensures Canonicalize(c) == Ok(c)
            <==> exists t :: TreeOk(t) && CanonicalTree(t) && Fine(t) && Nesting(t) <= 128 && TreeText(t) == c
  {
    hide TreeOk, CanonicalTree, Fine, Nesting, TreeText, Canon, Writable, ParseWithin, WellFormed, Normal, Compact;
    if Canonicalize(c) == Ok(c) {
      ParseJsonWellFormed(c, MAX_DEPTH);
      var t := TextOf(ParseJson(c).value);
      BareDoc(t);
      TextAccepted(Doc([], t, []));
    }
    if t :| TreeOk(t) && CanonicalTree(t) && Fine(t) && Nesting(t) <= 128 && TreeText(t) == c {
      BareDoc(t);
      TextAccepted(Doc([], t, []));
      ParseJsonWellFormed(c, MAX_DEPTH);
      ParsedWritable(c);
      TreeWritten(t);
    }
  }

  lemma BareDoc(t: Tree)
    requires TreeOk(t)
    ensures DocOk(Doc([], t, [])) && DocText(Doc([], t, [])) == TreeText(t)
  {
    BareText(Doc([], t, []));
  }

  /** The canonical text of a value is that of a canonical tree. */
  lemma TextOf(v: Value) returns (t: Tree)
    requires WellFormed(v)
    ensures TreeOk(t) && CanonicalTree(t) && Means(t) == Normal(v) && TreeText(t) == Canon(v)
  {
    hide CanonicalTree, TreeText, Canon, WellFormed, Normal, Compact, Orderly;
    Canonical.NormalKeeps(v);
    NormalOrderly(v);
    t := Compact(Normal(v));
    CompactStands(Normal(v));
    TreeWritten(t);
  }
}
