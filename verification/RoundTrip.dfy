/** The parser and the canonical writer undo each other. */
module RoundTrip {
  import opened Core
  import opened Order
  import opened Sorting
  import opened Numbers
  import opened Scan
  import opened Json

  // ----- the normal form of a value -----

  /** Members sorted by name at every depth, numbers in plain notation. */
  function Normal(v: Value): Value
    decreases v, 1
  {
    match v
    case Num(n) => (match CheckSafeInteger(n) case SafeInteger(i) => Num(PlainLiteral(i)) case _ => v)
    case Arr(items) => Arr(NormalItems(items))
    case Obj(members) => Obj(Sort(NormalMembers(members), NameOf))
    case _ => v
  }

  function NormalItems(items: seq<Value>): (r: seq<Value>)
    ensures |r| == |items| && forall i :: 0 <= i < |items| ==> r[i] == Normal(items[i])
    decreases items, 0
  {
    if items == [] then [] else [Normal(items[0])] + NormalItems(items[1..])
  }

  function NormalMembers(members: seq<Member>): (r: seq<Member>)
    ensures |r| == |members|
    ensures forall i :: 0 <= i < |members| ==> r[i] == Entry(members[i].name, Normal(members[i].value))
    decreases members, 0
  {
    if members == [] then []
    else [Entry(members[0].name, Normal(members[0].value))] + NormalMembers(members[1..])
  }

  function CanonEntry(m: Member): Entry<bytes> {
    Entry(m.name, Canon(m.value))
  }

  function NormalEntry(m: Member): Member {
    Entry(m.name, Normal(m.value))
  }

  lemma {:induction false} CanonMembersMap(ms: seq<Member>)
    ensures CanonMembers(ms) == Map(ms, CanonEntry)
  {
    if ms != [] {
      CanonMembersMap(ms[1..]);
      assert Map(ms, CanonEntry) == [CanonEntry(ms[0])] + Map(ms[1..], CanonEntry);
    }
  }

  /** Sorting the written members is writing the sorted members. */
  lemma CanonSorted(ms: seq<Member>)
    ensures Sort(CanonMembers(ms), NameOf) == CanonMembers(Sort(ms, NameOf))
    ensures Sort(NormalMembers(ms), NameOf) == NormalMembers(Sort(ms, NameOf))
  {
    CanonMembersMap(ms);
    CanonMembersMap(Sort(ms, NameOf));
    SortMap(ms, CanonEntry, NameOf, NameOf);
    assert NormalMembers(ms) == Map(ms, NormalEntry);
    assert NormalMembers(Sort(ms, NameOf)) == Map(Sort(ms, NameOf), NormalEntry);
    SortMap(ms, NormalEntry, NameOf, NameOf);
  }

  // ----- what follows a value, and how a value starts -----

  predicate Delimits(rest: bytes) {
    rest == [] || rest[0] == COMMA || rest[0] == CLOSE_BRACKET || rest[0] == CLOSE_BRACE
  }

  predicate StartsValue(b: byte) {
    !IsSpace(b) && b != COMMA && b != CLOSE_BRACKET && b != CLOSE_BRACE && b != COLON
  }

  lemma CanonStarts(v: Value)
    requires WellFormed(v)
    ensures Canon(v) != [] && StartsValue(Canon(v)[0])
  {
    match v
    case Num(n) =>
      NumberTextIs(n);
      IntTextStarts(CheckSafeInteger(n).n);
    case _ =>
  }

  lemma NumberTextIs(n: Number)
    requires CheckSafeInteger(n).SafeInteger?
    ensures NumberText(n) == IntText(CheckSafeInteger(n).n)
  {
    CanonicalNumber(n);
  }

  lemma IntTextStarts(n: int)
    ensures IntText(n)[0] == MINUS || IsDigit(IntText(n)[0])
  {
    if n >= 0 {
      assert DecText(n)[0] in DecText(n);
    }
  }

  // ----- one value -----

  /** Parsing the canonical text of a value, with anything behind it that may follow
      a value, gives its normal form and leaves what was behind it. */
  lemma {:induction false} ParseCanon(v: Value, rest: bytes, depth: nat, limit: nat)
    requires WellFormed(v) && depth + Depth(v) <= limit && Delimits(rest)
    ensures ParseValue(Canon(v) + rest, depth, limit) == Ok(Lexed(Normal(v), rest))
    decreases v, 1
  {
    hide ParseValue, ParseItems, ParseMembers, Sort, MembersText, ItemsText, CanonItems, CanonMembers, NormalItems, NormalMembers, Distinct, Clean, NumberText, JcsString;
    CanonStarts(v);
    match v
    case Arr(items) =>
      var body := ItemsText(CanonItems(items), true) + ([CLOSE_BRACKET] + rest);
      assert Canon(v) + rest == [OPEN_BRACKET] + body;
      ParseCanonItems(items, [], rest, depth, limit);
      assert [] + NormalItems(items) == NormalItems(items);
      EnterArray(body, depth, limit);
    case Obj(members) =>
      var sorted := Sort(members, NameOf);
      CanonSorted(members);
      SortedMembers(members);
      var body := MembersText(CanonMembers(sorted), true) + ([CLOSE_BRACE] + rest);
      assert Canon(v) + rest == [OPEN_BRACE] + body;
      ParseCanonMembers(v, sorted, [], rest, depth, limit);
      assert [] + NormalMembers(sorted) == NormalMembers(sorted);
      EnterObject(body, depth, limit);
    case _ =>
      ParseCanonScalar(v, rest, depth, limit);
  }

  lemma EnterArray(body: bytes, depth: nat, limit: nat)
    requires depth < limit
    ensures ParseValue([OPEN_BRACKET] + body, depth, limit) == ParseItems(body, depth, limit, [])
  {
    assert ([OPEN_BRACKET] + body)[1..] == body;
  }

  lemma EnterObject(body: bytes, depth: nat, limit: nat)
    requires depth < limit
    ensures ParseValue([OPEN_BRACE] + body, depth, limit) == ParseMembers(body, depth, limit, [])
  {
    assert ([OPEN_BRACE] + body)[1..] == body;
  }

  lemma SortedMembers(members: seq<Member>)
    requires Distinct(Names(members))
    ensures var sorted := Sort(members, NameOf);
            Distinct(Names(sorted)) && (forall m :: m in sorted ==> m in members)
            && MembersDepth(sorted) <= MembersDepth(members) && |sorted| == |members|
  {
    var sorted := Sort(members, NameOf);
    SortPermutes(members, NameOf);
    SortStrict(members, NameOf);
    AscendingDistinct(Names(sorted));
    SortedDepth(members, sorted);
  }

  lemma SortedDepth(members: seq<Member>, sorted: seq<Member>)
    requires forall m :: m in sorted ==> m in members
    ensures MembersDepth(sorted) <= MembersDepth(members)
    decreases |sorted|
  {
    if sorted != [] {
      assert sorted[0] in members;
      SortedDepth(members, sorted[1..]);
    }
  }

  lemma ParseCanonScalar(v: Value, rest: bytes, depth: nat, limit: nat)
    requires WellFormed(v) && !v.Arr? && !v.Obj? && Delimits(rest)
    ensures ParseValue(Canon(v) + rest, depth, limit) == Ok(Lexed(Normal(v), rest))
  {
    hide Canon, ParseScalar, WellFormed, Normal;
    var t := Canon(v) + rest;
    CanonStarts(v);
    assert t[0] == Canon(v)[0];
    assert SkipSpace(t) == t;
    CanonScalarReads(v, rest);
  }

  lemma CanonScalarReads(v: Value, rest: bytes)
    requires WellFormed(v) && !v.Arr? && !v.Obj? && Delimits(rest)
    ensures var t := Canon(v) + rest;
            t != [] && t[0] != OPEN_BRACE && t[0] != OPEN_BRACKET && ParseScalar(t) == Ok(Lexed(Normal(v), rest))
  {
    hide ParseNumber, ParseString, JcsString, NumberText, Clean, CheckSafeInteger;
    match v
    case Num(n) =>
      NumberReads(n, rest);
    case Str(s) =>
      StringReads(s, rest);
    case _ =>
      hide ParseWord;
      WordReads(NULL_TEXT, Null, rest);
      WordReads(TRUE_TEXT, Bool(true), rest);
      WordReads(FALSE_TEXT, Bool(false), rest);
  }

  lemma WordReads(word: bytes, v: Value, rest: bytes)
    requires word != []
    ensures ParseWord(word + rest, word, v) == Ok(Lexed(v, rest))
  {
  }

  lemma NumberReads(n: Number, rest: bytes)
    requires CheckSafeInteger(n).SafeInteger? && Delimits(rest)
    ensures ParseNumber(NumberText(n) + rest) == Ok(Lexed(Normal(Num(n)), rest))
    ensures NumberText(n) != [] && (NumberText(n)[0] == MINUS || IsDigit(NumberText(n)[0]))
  {
    hide IntText, CheckSafeInteger, LexNumber, PlainLiteral, NumberText, LiteralText;
    var i := CheckSafeInteger(n).n;
    NumberTextIs(n);
    IntTextStarts(i);
    AcceptedExactly(n);
    PlainLiteralAccepted(i);
    DelimitsEnds(rest);
    var l := PlainLiteral(i);
    LexNumberText(l, rest);
    assert LexNumber(NumberText(n) + rest) == Some(Lexed(l, rest));
  }

  lemma DelimitsEnds(rest: bytes)
    requires Delimits(rest)
    ensures EndsNumber(rest)
  {
  }

  lemma StringReads(s: string, rest: bytes)
    ensures ParseString(JcsString(s) + rest) == Ok(Lexed(s, rest))
    ensures (JcsString(s) + rest)[0] == QUOTE
  {
    hide JcsChars, LexBody, Unquote, Clean, ScanBody;
    JcsReadsBack(s, rest);
    QuotedSplit(JcsChars(s), rest);
  }

  lemma QuotedSplit(body: bytes, rest: bytes)
    ensures var t := [QUOTE] + body + [QUOTE] + rest;
            t[0] == QUOTE && t[1..] == body + [QUOTE] + rest && t[1..|body| + 1] == body && t[1 + (|body| + 1)..] == rest
  {
  }

  // ----- arrays -----

  lemma Regroup(a: bytes, b: bytes, c: bytes, d: bytes)
    ensures a + b + c + d == a + (b + (c + d))
  {
  }

  lemma RegroupSix(a: bytes, b: bytes, c: bytes, d: bytes, e: bytes, f: bytes)
    ensures a + b + c + d + e + f == a + (b + (c + (d + (e + f))))
  {
  }

  lemma ItemsSplit(items: seq<Value>, acc: seq<Value>, close: bytes)
    requires items != []
    ensures ItemsText(CanonItems(items), acc == []) + close
            == (if acc == [] then [] else [COMMA])
               + (Canon(items[0]) + (ItemsText(CanonItems(items[1..]), false) + close))
    ensures acc + [Normal(items[0])] + NormalItems(items[1..]) == acc + NormalItems(items)
  {
    hide Canon, Normal, ItemsText;
    var ts := CanonItems(items);
    assert ts[0] == Canon(items[0]) && ts[1..] == CanonItems(items[1..]);
    FirstItemText(ts, acc == []);
    Regroup(if acc == [] then [] else [COMMA], ts[0], ItemsText(ts[1..], false), close);
  }

  lemma FirstItemText(ts: seq<bytes>, first: bool)
    requires ts != []
    ensures ItemsText(ts, first) == (if first then [] else [COMMA]) + ts[0] + ItemsText(ts[1..], false)
  {
  }

  lemma {:induction false} ParseCanonItems(items: seq<Value>, acc: seq<Value>, rest: bytes, depth: nat, limit: nat)
    requires forall i :: 0 <= i < |items| ==> WellFormed(items[i])
    requires depth + 1 + ItemsDepth(items) <= limit
    ensures ParseItems(ItemsText(CanonItems(items), acc == []) + ([CLOSE_BRACKET] + rest), depth, limit, acc)
            == Ok(Lexed(Arr(acc + NormalItems(items)), rest))
    decreases items, 0
  {
    hide ParseValue, ParseItems, Canon, Normal, WellFormed, Depth, ItemsText, CanonItems, NormalItems;
    var close := [CLOSE_BRACKET] + rest;
    if items == [] {
      NoItems(acc, rest, depth, limit);
    } else {
      var after := ItemsText(CanonItems(items[1..]), false) + close;
      var comma := if acc == [] then [] else [COMMA];
      ItemsSplit(items, acc, close);
      CanonStarts(items[0]);
      FurtherDelimits(items[1..], [], close);
      ParseCanon(items[0], after, depth + 1, limit);
      ItemStep(Canon(items[0]) + after, comma, Normal(items[0]), after, depth, limit, acc);
      ParseCanonItems(items[1..], acc + [Normal(items[0])], rest, depth, limit);
    }
  }

  lemma NoItems(acc: seq<Value>, rest: bytes, depth: nat, limit: nat)
    ensures ParseItems(ItemsText(CanonItems([]), acc == []) + ([CLOSE_BRACKET] + rest), depth, limit, acc)
            == Ok(Lexed(Arr(acc + NormalItems([])), rest))
  {
    var close := [CLOSE_BRACKET] + rest;
    assert ItemsText(CanonItems([]), acc == []) + close == close;
    assert acc + NormalItems([]) == acc;
    assert close[1..] == rest;
  }

  /** One element of the loop over an array. */
  lemma ItemStep(t: bytes, comma: bytes, v: Value, after: bytes, depth: nat, limit: nat, acc: seq<Value>)
    requires t != [] && StartsValue(t[0])
    requires comma == if acc == [] then [] else [COMMA]
    requires ParseValue(t, depth + 1, limit) == Ok(Lexed(v, after))
    ensures ParseItems(comma + t, depth, limit, acc) == ParseItems(after, depth, limit, acc + [v])
  {
    hide ParseValue;
    var s := comma + t;
    if acc == [] {
      assert s == t;
    } else {
      assert s[0] == COMMA && s[1..] == t;
    }
  }

  // ----- objects -----

  lemma MembersSplit(ms: seq<Member>, acc: seq<Member>, close: bytes)
    requires ms != []
    ensures MembersText(CanonMembers(ms), acc == []) + close
            == (if acc == [] then [] else [COMMA])
               + (JcsString(ms[0].name)
                  + ([COLON] + (Canon(ms[0].value) + (MembersText(CanonMembers(ms[1..]), false) + close))))
    ensures acc + [NormalEntry(ms[0])] + NormalMembers(ms[1..]) == acc + NormalMembers(ms)
  {
    hide JcsString, Canon, Normal;
    var ts := CanonMembers(ms);
    var comma := if acc == [] then [] else [COMMA];
    assert ts[0] == CanonEntry(ms[0]) && ts[1..] == CanonMembers(ms[1..]);
    RegroupSix(comma, JcsString(ms[0].name), [COLON], ts[0].value, MembersText(ts[1..], false), close);
  }

  /** The texts of further elements or members start with a comma. */
  lemma FurtherDelimits(items: seq<Value>, ms: seq<Member>, close: bytes)
    requires Delimits(close)
    ensures Delimits(ItemsText(CanonItems(items), false) + close)
    ensures Delimits(MembersText(CanonMembers(ms), false) + close)
  {
    hide JcsString;
  }

  lemma {:induction false} ParseCanonMembers(v: Value, ms: seq<Member>, acc: seq<Member>, rest: bytes, depth: nat, limit: nat)
    requires WellFormed(v) && v.Obj? && forall m :: m in ms ==> m in v.members
    requires Distinct(Names(ms)) && forall i :: 0 <= i < |ms| ==> !HasName(acc, ms[i].name)
    requires depth + 1 + MembersDepth(ms) <= limit
    ensures ParseMembers(MembersText(CanonMembers(ms), acc == []) + ([CLOSE_BRACE] + rest), depth, limit, acc)
            == Ok(Lexed(Obj(acc + NormalMembers(ms)), rest))
    decreases v, 0, |ms|
  {
    hide ParseValue, ParseMembers, Canon, Normal, JcsString, Depth, Distinct, HasName, MembersText, CanonMembers, NormalMembers;
    var close := [CLOSE_BRACE] + rest;
    if ms == [] {
      NoMembers(acc, rest, depth, limit);
    } else {
      var m := ms[0];
      assert m in v.members;
      var after := MembersText(CanonMembers(ms[1..]), false) + close;
      var comma := if acc == [] then [] else [COMMA];
      var value := Canon(m.value) + after;
      MembersSplit(ms, acc, close);
      FurtherDelimits([], ms[1..], close);
      ParseCanon(m.value, after, depth + 1, limit);
      MemberStep(m.name, value, comma, Normal(m.value), after, depth, limit, acc);
      NamesAdvance(ms, acc);
      ParseCanonMembers(v, ms[1..], acc + [NormalEntry(m)], rest, depth, limit);
    }
  }

  lemma NoMembers(acc: seq<Member>, rest: bytes, depth: nat, limit: nat)
    ensures ParseMembers(MembersText(CanonMembers([]), acc == []) + ([CLOSE_BRACE] + rest), depth, limit, acc)
            == Ok(Lexed(Obj(acc + NormalMembers([])), rest))
  {
    var close := [CLOSE_BRACE] + rest;
    assert MembersText(CanonMembers([]), acc == []) + close == close;
    assert acc + NormalMembers([]) == acc;
    assert close[1..] == rest;
  }

  lemma NamesAdvance(ms: seq<Member>, acc: seq<Member>)
    requires ms != [] && Distinct(Names(ms)) && forall i :: 0 <= i < |ms| ==> !HasName(acc, ms[i].name)
    ensures Distinct(Names(ms[1..]))
    ensures forall i :: 0 <= i < |ms[1..]| ==> !HasName(acc + [NormalEntry(ms[0])], ms[1..][i].name)
  {
    forall i | 0 <= i < |ms[1..]| ensures !HasName(acc + [NormalEntry(ms[0])], ms[1..][i].name) {
      assert Names(ms)[0] != Names(ms)[i + 1];
      assert !HasName(acc, ms[i + 1].name);
    }
    forall i, j | 0 <= i < j < |ms[1..]| ensures Names(ms[1..])[i] != Names(ms[1..])[j] {
      assert Names(ms)[i + 1] != Names(ms)[j + 1];
    }
  }

  /** One member of the loop over an object. */
  lemma MemberStep(name: string, value: bytes, comma: bytes, v: Value, after: bytes, depth: nat, limit: nat, acc: seq<Member>)
    requires comma == if acc == [] then [] else [COMMA]
    requires !HasName(acc, name)
    requires ParseValue(value, depth + 1, limit) == Ok(Lexed(v, after))
    ensures ParseMembers(comma + (JcsString(name) + ([COLON] + value)), depth, limit, acc)
            == ParseMembers(after, depth, limit, acc + [Entry(name, v)])
  {
    hide ParseValue, JcsString;
    var t := JcsString(name) + ([COLON] + value);
    var s := comma + t;
    StringReads(name, [COLON] + value);
    assert ([COLON] + value)[1..] == value;
    assert ParseName(t, acc) == Ok(Lexed(name, value));
    if acc == [] {
      assert s == t;
    } else {
      assert s[0] == COMMA && s[1..] == t;
    }
  }
}
