/** What every parsed value satisfies, and where the document scan stands after it. */
module Parsed {
  import opened Core
  import opened Sorting
  import opened Numbers
  import opened Scan
  import opened Json
  import RoundTrip

  // ----- the document scan along a parse -----

  predicate NoQuote(p: bytes) {
    forall i :: 0 <= i < |p| ==> p[i] != QUOTE
  }

  lemma {:induction false} ScanPast(p: bytes, rest: bytes)
    requires NoQuote(p)
    ensures ScanDocument(p + rest) == ScanDocument(rest)
  {
    hide ScanBody;
    if p == [] {
      assert p + rest == rest;
    } else {
      var b := p + rest;
      assert b[0] == p[0] && b[1..] == p[1..] + rest;
      ScanPast(p[1..], rest);
    }
  }

  lemma {:induction false} ScanPastSpace(s: bytes)
    ensures ScanDocument(s) == ScanDocument(SkipSpace(s))
  {
    hide ScanBody;
    if s != [] && IsSpace(s[0]) {
      ScanPastSpace(s[1..]);
    }
  }

  lemma ScanPastByte(t: bytes)
    requires t != [] && t[0] != QUOTE
    ensures ScanDocument(t) == ScanDocument(t[1..])
  {
  }

  lemma DigitsNoQuote(ds: bytes)
    requires AllDigits(ds)
    ensures NoQuote(ds)
  {
    forall i | 0 <= i < |ds| ensures ds[i] != QUOTE {
      assert ds[i] in ds;
    }
  }

  lemma NumberNoQuote(l: Literal)
    requires LiteralOk(l)
    ensures NoQuote(LiteralText(l))
  {
    DigitsNoQuote(l.whole);
    if l.frac.Some? { DigitsNoQuote(l.frac.value); }
    if l.exp.Some? { DigitsNoQuote(l.exp.value.digits); }
  }

  lemma StringScanned(t: bytes)
    requires ParseString(t).Ok? && ScanDocument(t)
    ensures Clean(ParseString(t).value.token) && ScanDocument(ParseString(t).value.rest)
  {
    hide LexBody, ScanBody, Unquote;
    var b := t[1..];
    assert ScanBody(b).Some?;
    AcceptedIffDenotesClean(b);
    AcceptedDecodesExactly(b);
    assert b[..LexBody(b).value - 1] == t[1..LexBody(b).value];
  }

  lemma ScalarScanned(t: bytes)
    requires t != [] && ParseScalar(t).Ok? && ScanDocument(t)
    ensures WellFormed(ParseScalar(t).value.token) && ScanDocument(ParseScalar(t).value.rest)
    ensures Depth(ParseScalar(t).value.token) == 0
  {
    hide ParseString, LexNumber, CheckSafeInteger, ScanDocument, LiteralText, Clean;
    var rest := ParseScalar(t).value.rest;
    if t[0] == QUOTE {
      StringScanned(t);
    } else if t[0] == MINUS || IsDigit(t[0]) {
      var l := LexNumber(t).value.token;
      NumberNoQuote(l);
      ScanPast(LiteralText(l), rest);
    } else {
      var word := if t[0] == 0x74 then TRUE_TEXT else if t[0] == 0x66 then FALSE_TEXT else NULL_TEXT;
      assert t == word + rest;
      ScanPast(word, rest);
    }
  }

  // ----- every parsed value is well formed -----

  lemma {:induction false} ParsedWellFormed(s: bytes, depth: nat, limit: nat)
    requires ParseValue(s, depth, limit).Ok? && ScanDocument(s) && depth <= limit
    ensures var r := ParseValue(s, depth, limit).value;
            WellFormed(r.token) && depth + Depth(r.token) <= limit && ScanDocument(r.rest)
    decreases |s|, 0
  {
    hide ParseScalar, ParseItems, ParseMembers, ScanDocument, WellFormed, Depth, SkipSpace;
    var t := SkipSpace(s);
    ScanPastSpace(s);
    if t[0] == OPEN_BRACE {
      ScanPastByte(t);
      MembersWellFormed(t[1..], depth, limit, []);
    } else if t[0] == OPEN_BRACKET {
      ScanPastByte(t);
      ItemsWellFormed(t[1..], depth, limit, []);
    } else {
      ScalarScanned(t);
    }
  }

  /** Elements read so far. */
  predicate ItemsOk(acc: seq<Value>, depth: nat, limit: nat) {
    forall i :: 0 <= i < |acc| ==> WellFormed(acc[i]) && depth + 1 + Depth(acc[i]) <= limit
  }

  lemma ArrOk(acc: seq<Value>, depth: nat, limit: nat)
    requires ItemsOk(acc, depth, limit) && depth < limit
    ensures WellFormed(Arr(acc)) && depth + Depth(Arr(acc)) <= limit
  {
    ItemsDepthBound(acc, limit - depth - 1);
  }

  lemma {:induction false} ItemsDepthBound(items: seq<Value>, d: nat)
    requires forall i :: 0 <= i < |items| ==> Depth(items[i]) <= d
    ensures ItemsDepth(items) <= d
  {
    if items != [] {
      ItemsDepthBound(items[1..], d);
    }
  }

  lemma {:induction false} ItemsWellFormed(s: bytes, depth: nat, limit: nat, acc: seq<Value>)
    requires ParseItems(s, depth, limit, acc).Ok? && ScanDocument(s) && depth < limit
    requires ItemsOk(acc, depth, limit)
    ensures var r := ParseItems(s, depth, limit, acc).value;
            WellFormed(r.token) && depth + Depth(r.token) <= limit && ScanDocument(r.rest)
    decreases |s|, 1
  {
    hide ParseValue, ScanDocument, WellFormed, Depth, SkipSpace;
    var t := SkipSpace(s);
    ScanPastSpace(s);
    if t[0] == CLOSE_BRACKET {
      ScanPastByte(t);
      ArrOk(acc, depth, limit);
    } else {
      if acc != [] {
        ScanPastByte(t);
      }
      var u := if acc == [] then t else t[1..];
      ParsedWellFormed(u, depth + 1, limit);
      var v := ParseValue(u, depth + 1, limit).value;
      ItemsWellFormed(v.rest, depth, limit, acc + [v.token]);
    }
  }

  /** Members read so far. */
  predicate MembersOk(acc: seq<Member>, depth: nat, limit: nat) {
    Distinct(Names(acc)) &&
    forall i :: 0 <= i < |acc| ==>
      Clean(acc[i].name) && WellFormed(acc[i].value) && depth + 1 + Depth(acc[i].value) <= limit
  }

  lemma ObjOk(acc: seq<Member>, depth: nat, limit: nat)
    requires MembersOk(acc, depth, limit) && depth < limit
    ensures WellFormed(Obj(acc)) && depth + Depth(Obj(acc)) <= limit
  {
    MembersDepthBound(acc, limit - depth - 1);
  }

  lemma {:induction false} MembersDepthBound(members: seq<Member>, d: nat)
    requires forall i :: 0 <= i < |members| ==> Depth(members[i].value) <= d
    ensures MembersDepth(members) <= d
  {
    if members != [] {
      MembersDepthBound(members[1..], d);
    }
  }

  lemma MembersExtend(acc: seq<Member>, m: Member, depth: nat, limit: nat)
    requires MembersOk(acc, depth, limit) && !HasName(acc, m.name)
    requires Clean(m.name) && WellFormed(m.value) && depth + 1 + Depth(m.value) <= limit
    ensures MembersOk(acc + [m], depth, limit)
  {
    hide Clean, WellFormed, Depth;
    var names := Names(acc + [m]);
    forall i, j | 0 <= i < j < |names| ensures names[i] != names[j] {
      if j < |acc| {
        assert Names(acc)[i] != Names(acc)[j];
      }
    }
  }

  lemma {:induction false} MembersWellFormed(s: bytes, depth: nat, limit: nat, acc: seq<Member>)
    requires ParseMembers(s, depth, limit, acc).Ok? && ScanDocument(s) && depth < limit
    requires MembersOk(acc, depth, limit)
    ensures var r := ParseMembers(s, depth, limit, acc).value;
            WellFormed(r.token) && depth + Depth(r.token) <= limit && ScanDocument(r.rest)
    decreases |s|, 1
  {
    hide ParseValue, ParseName, ScanDocument, WellFormed, Depth, SkipSpace, MembersOk;
    var t := SkipSpace(s);
    ScanPastSpace(s);
    if t[0] == CLOSE_BRACE {
      ScanPastByte(t);
      ObjOk(acc, depth, limit);
    } else {
      if acc != [] {
        ScanPastByte(t);
      }
      var u := if acc == [] then t else t[1..];
      NameScanned(u, acc);
      var name := ParseName(u, acc).value;
      ParsedWellFormed(name.rest, depth + 1, limit);
      var v := ParseValue(name.rest, depth + 1, limit).value;
      MembersExtend(acc, Entry(name.token, v.token), depth, limit);
      MembersWellFormed(v.rest, depth, limit, acc + [Entry(name.token, v.token)]);
    }
  }

  lemma NameScanned(s: bytes, acc: seq<Member>)
    requires ParseName(s, acc).Ok? && ScanDocument(s)
    ensures var r := ParseName(s, acc).value;
            Clean(r.token) && !HasName(acc, r.token) && ScanDocument(r.rest)
  {
    hide ParseString, ScanDocument, Clean, SkipSpace;
    var t := SkipSpace(s);
    ScanPastSpace(s);
    StringScanned(t);
    var rest := ParseString(t).value.rest;
    ScanPastSpace(rest);
    ScanPastByte(SkipSpace(rest));
  }

  /** Everything parseJSONValue returns is well formed and nested within the bound. */
  lemma ParseJsonWellFormed(raw: bytes, limit: nat)
    requires ParseWithin(raw, limit).Ok?
    ensures WellFormed(ParseWithin(raw, limit).value) && Depth(ParseWithin(raw, limit).value) <= limit
  {
    ParsedWellFormed(raw, 0, limit);
  }

  /** appendCanonical meets no error on a parsed value: its own depth check is never
      the one to fire. */
  lemma ParsedWritable(raw: bytes)
    requires ParseJson(raw).Ok?
    ensures Writable(ParseJson(raw).value, 0)
  {
    ParseJsonWellFormed(raw, MAX_DEPTH);
    WellFormedWritable(ParseJson(raw).value, 0);
  }

  lemma {:induction false} WellFormedWritable(v: Value, depth: nat)
    requires WellFormed(v) && depth + Depth(v) <= MAX_DEPTH
    ensures Writable(v, depth)
  {
    match v
    case Arr(items) =>
      forall i | 0 <= i < |items| ensures Writable(items[i], depth + 1) {
        WellFormedWritable(items[i], depth + 1);
      }
    case Obj(members) =>
      forall i | 0 <= i < |members| ensures Writable(members[i].value, depth + 1) {
        WellFormedWritable(members[i].value, depth + 1);
      }
    case _ =>
  }

  // ----- the document scan over canonical text -----

  lemma StringPassed(s: string, rest: bytes)
    requires Clean(s)
    ensures ScanDocument(JcsString(s) + rest) == ScanDocument(rest)
  {
    hide LexBody, ScanBody, Unquote, JcsChars;
    var t := JcsString(s) + rest;
    JcsReadsBack(s, rest);
    assert t[1..] == JcsChars(s) + [QUOTE] + rest;
    assert t[|JcsChars(s)| + 2..] == rest;
  }

  lemma {:induction false} CanonPassed(v: Value, rest: bytes)
    requires WellFormed(v)
    ensures ScanDocument(Canon(v) + rest) == ScanDocument(rest)
    decreases v, 1
  {
    hide ScanDocument, JcsString, NumberText, CheckSafeInteger, Sort, MembersText, ItemsText, CanonItems, CanonMembers, Clean, Distinct;
    match v
    case Null =>
      ScanPast(NULL_TEXT, rest);
    case Bool(b) =>
      ScanPast(Canon(v), rest);
    case Num(n) =>
      NumberTextNoQuote(n);
      ScanPast(NumberText(n), rest);
    case Str(s) =>
      StringPassed(s, rest);
    case Arr(items) =>
      var body := ItemsText(CanonItems(items), true);
      assert Canon(v) + rest == [OPEN_BRACKET] + (body + ([CLOSE_BRACKET] + rest));
      ScanPast([OPEN_BRACKET], body + ([CLOSE_BRACKET] + rest));
      ItemsPassed(items, true, [CLOSE_BRACKET] + rest);
      ScanPast([CLOSE_BRACKET], rest);
    case Obj(members) =>
      var body := MembersText(Sort(CanonMembers(members), NameOf), true);
      assert Canon(v) + rest == [OPEN_BRACE] + (body + ([CLOSE_BRACE] + rest));
      ScanPast([OPEN_BRACE], body + ([CLOSE_BRACE] + rest));
      RoundTrip.CanonSorted(members);
      SortPermutes(members, NameOf);
      MembersPassed(v, Sort(members, NameOf), true, [CLOSE_BRACE] + rest);
      ScanPast([CLOSE_BRACE], rest);
  }

  lemma NumberTextNoQuote(n: Number)
    requires CheckSafeInteger(n).SafeInteger?
    ensures NoQuote(NumberText(n))
  {
    RoundTrip.NumberTextIs(n);
    NumberNoQuote(PlainLiteral(CheckSafeInteger(n).n));
  }

  lemma {:induction false} ItemsPassed(items: seq<Value>, first: bool, close: bytes)
    requires forall i :: 0 <= i < |items| ==> WellFormed(items[i])
    ensures ScanDocument(ItemsText(CanonItems(items), first) + close) == ScanDocument(close)
    decreases items, 0
  {
    hide ScanDocument, Canon, WellFormed;
    var ts := CanonItems(items);
    if items == [] {
      assert ItemsText(ts, first) + close == close;
    } else {
      var comma := if first then [] else [COMMA];
      var after := ItemsText(ts[1..], false) + close;
      assert ts[0] == Canon(items[0]) && ts[1..] == CanonItems(items[1..]);
      RoundTrip.Regroup(comma, ts[0], ItemsText(ts[1..], false), close);
      ScanPast(comma, ts[0] + after);
      CanonPassed(items[0], after);
      ItemsPassed(items[1..], false, close);
    }
  }

  lemma {:induction false} MembersPassed(v: Value, ms: seq<Member>, first: bool, close: bytes)
    requires WellFormed(v) && v.Obj? && forall m :: m in ms ==> m in v.members
    ensures ScanDocument(MembersText(CanonMembers(ms), first) + close) == ScanDocument(close)
    decreases v, 0, |ms|
  {
    hide ScanDocument, Canon, JcsString, Clean, Distinct;
    var ts := CanonMembers(ms);
    if ms == [] {
      assert MembersText(ts, first) + close == close;
    } else {
      var m := ms[0];
      assert m in v.members;
      var comma := if first then [] else [COMMA];
      var after := MembersText(ts[1..], false) + close;
      assert ts[0] == Entry(m.name, Canon(m.value)) && ts[1..] == CanonMembers(ms[1..]);
      RoundTrip.RegroupSix(comma, JcsString(m.name), [COLON], Canon(m.value), MembersText(ts[1..], false), close);
      ScanPast(comma, JcsString(m.name) + ([COLON] + (Canon(m.value) + after)));
      StringPassed(m.name, [COLON] + (Canon(m.value) + after));
      ScanPast([COLON], Canon(m.value) + after);
      CanonPassed(m.value, after);
      MembersPassed(v, ms[1..], false, close);
    }
  }
}
