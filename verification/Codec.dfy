/** The parser and the writer as the source runs them: a decoder that consumes its
    input, a buffer that grows. */
module Codec {
  import opened Core
  import opened Sorting
  import opened Numbers
  import opened Scan
  import opened Json
  import RoundTrip
  import Parsed

  // ----- reading -----

  /** json.Decoder over a byte slice: what has not been consumed yet. */
  class Decoder {
    var rest: bytes

    constructor (raw: bytes)
      ensures rest == raw
    {
      rest := raw;
    }

    /** decodeValue. On an error the position is of no use. */
    method DecodeValue(depth: nat) returns (r: Result<Value>)
      modifies this
      ensures match ParseValue(old(rest), depth, MAX_DEPTH)
              case Ok(lexed) => r == Ok(lexed.token) && rest == lexed.rest
              case Err(e) => r == Err(e)
      decreases |rest|, 0
    {
      rest := SkipSpace(rest);
      if rest == [] {
        return Err(SyntaxError);
      }
      if rest[0] == OPEN_BRACE || rest[0] == OPEN_BRACKET {
        if depth >= MAX_DEPTH {
          return Err(TooDeep);
        }
        var open := rest[0];
        rest := rest[1..];
        if open == OPEN_BRACE {
          r := DecodeMembers(depth);
        } else {
          r := DecodeItems(depth);
        }
      } else {
        var scalar := ParseScalar(rest);
        if scalar.Err? {
          return Err(scalar.error);
        }
        rest := scalar.value.rest;
        r := Ok(scalar.value.token);
      }
    }

    /** The loop over an array, after its bracket. */
    method DecodeItems(depth: nat) returns (r: Result<Value>)
      requires depth < MAX_DEPTH
      modifies this
      ensures match ParseItems(old(rest), depth, MAX_DEPTH, [])
              case Ok(lexed) => r == Ok(lexed.token) && rest == lexed.rest
              case Err(e) => r == Err(e)
      decreases |rest|, 1
    {
      hide ParseValue, SkipSpace;
      var items: seq<Value> := [];
      while true
        invariant |rest| <= |old(rest)|
        invariant ParseItems(old(rest), depth, MAX_DEPTH, []) == ParseItems(rest, depth, MAX_DEPTH, items)
        decreases |rest|
      {
        ghost var before := rest;
        rest := SkipSpace(rest);
        if rest == [] || rest[0] == CLOSE_BRACE {
          return Err(SyntaxError);
        }
        if rest[0] == CLOSE_BRACKET {
          rest := rest[1..];
          return Ok(Arr(items));
        }
        if items != [] {
          if rest[0] != COMMA {
            return Err(SyntaxError);
          }
          rest := rest[1..];
        }
        var v := DecodeValue(depth + 1);
        if v.Err? {
          return Err(v.error);
        }
        items := items + [v.value];
      }
    }

    /** The loop over an object, after its brace. */
    method DecodeMembers(depth: nat) returns (r: Result<Value>)
      requires depth < MAX_DEPTH
      modifies this
      ensures match ParseMembers(old(rest), depth, MAX_DEPTH, [])
              case Ok(lexed) => r == Ok(lexed.token) && rest == lexed.rest
              case Err(e) => r == Err(e)
      decreases |rest|, 1
    {
      hide ParseValue, SkipSpace, ParseName;
      var members: seq<Member> := [];
      while true
        invariant |rest| <= |old(rest)|
        invariant ParseMembers(old(rest), depth, MAX_DEPTH, []) == ParseMembers(rest, depth, MAX_DEPTH, members)
        decreases |rest|
      {
        rest := SkipSpace(rest);
        if rest == [] || rest[0] == CLOSE_BRACKET {
          return Err(SyntaxError);
        }
        if rest[0] == CLOSE_BRACE {
          rest := rest[1..];
          return Ok(Obj(members));
        }
        if members != [] {
          if rest[0] != COMMA {
            return Err(SyntaxError);
          }
          rest := rest[1..];
        }
        var name := ParseName(rest, members);
        if name.Err? {
          return Err(name.error);
        }
        rest := name.value.rest;
        var v := DecodeValue(depth + 1);
        if v.Err? {
          return Err(v.error);
        }
        members := members + [Entry(name.value.token, v.value)];
      }
    }
  }

  /** parseJSONValue. */
  method ParseJsonValue(raw: bytes) returns (r: Result<Value>)
    ensures r == ParseJson(raw)
  {
    var decoder := new Decoder(raw);
    r := decoder.DecodeValue(0);
    if r.Err? {
      return;
    }
    if SkipSpace(decoder.rest) != [] {
      return Err(TrailingContent);
    }
    var scalar := CheckStringScalars(raw);
    if !scalar {
      return Err(NotScalar);
    }
  }

  // ----- writing -----

  /** bytes.Buffer. */
  class Buffer {
    var data: bytes

    constructor ()
      ensures data == []
    {
      data := [];
    }

    method Write(b: bytes)
      modifies this
      ensures data == old(data) + b
    {
      data := data + b;
    }
  }

  /** appendJCSString. */
  method AppendJcsString(buf: Buffer, s: string)
    modifies buf
    ensures buf.data == old(buf.data) + JcsString(s)
  {
    hide JcsChar;
    buf.Write([QUOTE]);
    assert s[0..] == s;
    for i := 0 to |s|
      invariant buf.data + JcsChars(s[i..]) == old(buf.data) + ([QUOTE] + JcsChars(s))
    {
      assert JcsChars(s[i..]) == JcsChar(s[i]) + JcsChars(s[i + 1..]) by {
        assert s[i..][0] == s[i] && s[i..][1..] == s[i + 1..];
      }
      buf.Write(JcsChar(s[i]));
    }
    assert JcsChars(s[|s|..]) == [];
    assert buf.data == old(buf.data) + ([QUOTE] + JcsChars(s));
    buf.Write([QUOTE]);
  }

  /** The canonical text of an array of strings. */
  function StringArrayText(ss: seq<string>): bytes {
    [OPEN_BRACKET] + ItemsText(Map(ss, JcsString), true) + [CLOSE_BRACKET]
  }

  function StrOf(s: string): Value {
    Str(s)
  }

  lemma StringArrayIsCanonical(ss: seq<string>)
    ensures StringArrayText(ss) == Canon(Arr(Map(ss, StrOf)))
  {
    hide ItemsText, JcsString;
    StringTexts(ss);
  }

  lemma {:induction false} StringTexts(ss: seq<string>)
    ensures CanonItems(Map(ss, StrOf)) == Map(ss, JcsString)
  {
    hide JcsString;
    var vs := Map(ss, StrOf);
    if ss != [] {
      StringTexts(ss[1..]);
      assert vs[1..] == Map(ss[1..], StrOf);
      assert vs[0] == Str(ss[0]);
      assert Map(ss, JcsString) == [JcsString(ss[0])] + Map(ss[1..], JcsString);
    }
  }

  /** appendStringArray. */
  method AppendStringArray(buf: Buffer, ss: seq<string>)
    modifies buf
    ensures buf.data == old(buf.data) + StringArrayText(ss)
  {
    hide JcsString, ItemsText;
    ghost var base := old(buf.data) + [OPEN_BRACKET];
    buf.Write([OPEN_BRACKET]);
    EmptyTexts();
    assert Map(ss[..0], JcsString) == [];
    for i := 0 to |ss|
      invariant buf.data == base + ItemsText(Map(ss[..i], JcsString), true)
    {
      if i > 0 {
        buf.Write([COMMA]);
      }
      AppendJcsString(buf, ss[i]);
      assert ss[..i + 1] == ss[..i] + [ss[i]];
      MapAppend(ss[..i], [ss[i]], JcsString);
      ItemsTextAppend(Map(ss[..i], JcsString), JcsString(ss[i]), true);
      assert i > 0 ==> |Map(ss[..i], JcsString)| > 0;
    }
    assert ss[..|ss|] == ss;
    buf.Write([CLOSE_BRACKET]);
    assert buf.data == old(buf.data) + ([OPEN_BRACKET] + ItemsText(Map(ss, JcsString), true) + [CLOSE_BRACKET]);
  }

  /** The representation of a jsonObject: no name twice, at any depth. */
  predicate NamesDistinct(v: Value) {
    match v
    case Arr(items) => forall i :: 0 <= i < |items| ==> NamesDistinct(items[i])
    case Obj(members) => Distinct(Names(members)) && forall i :: 0 <= i < |members| ==> NamesDistinct(members[i].value)
    case _ => true
  }

  lemma {:induction false} WellFormedNames(v: Value)
    requires WellFormed(v)
    ensures NamesDistinct(v)
  {
    match v
    case Arr(items) =>
      forall i | 0 <= i < |items| ensures NamesDistinct(items[i]) {
        WellFormedNames(items[i]);
      }
    case Obj(members) =>
      forall i | 0 <= i < |members| ensures NamesDistinct(members[i].value) {
        WellFormedNames(members[i].value);
      }
    case _ =>
  }

  /** The value under a name. */
  function Lookup(members: seq<Member>, name: string): (v: Value)
    requires HasName(members, name)
    ensures exists i :: 0 <= i < |members| && members[i] == Entry(name, v)
  {
    if members[0].name == name then
      assert members[0] == Entry(name, members[0].value);
      members[0].value
    else
      var v := Lookup(members[1..], name);
      var i :| 0 <= i < |members[1..]| && members[1..][i] == Entry(name, v);
      assert members[i + 1] == Entry(name, v);
      v
  }

  lemma {:induction false} ItemsTextAppend(ts: seq<bytes>, t: bytes, first: bool)
    ensures ItemsText(ts + [t], first)
            == ItemsText(ts, first) + ((if first && ts == [] then [] else [COMMA]) + t)
  {
    if ts == [] {
      assert ts + [t] == [t];
    } else {
      assert (ts + [t])[1..] == ts[1..] + [t];
      ItemsTextAppend(ts[1..], t, false);
    }
  }

  lemma {:induction false} CanonItemsAppend(items: seq<Value>, v: Value)
    ensures CanonItems(items + [v]) == CanonItems(items) + [Canon(v)]
  {
    hide Canon;
    if items == [] {
      assert items + [v] == [v];
    } else {
      assert (items + [v])[1..] == items[1..] + [v];
      CanonItemsAppend(items[1..], v);
    }
  }

  lemma {:induction false} MembersTextAppend(ts: seq<Entry<bytes>>, t: Entry<bytes>, first: bool)
    ensures MembersText(ts + [t], first)
            == MembersText(ts, first)
               + ((if first && ts == [] then [] else [COMMA]) + JcsString(t.name) + [COLON] + t.value)
  {
    hide JcsString;
    if ts == [] {
      assert ts + [t] == [t];
      assert MembersText([], first) == [];
      assert [t][1..] == [];
    } else {
      assert (ts + [t])[1..] == ts[1..] + [t];
      MembersTextAppend(ts[1..], t, false);
      var head := (if first then [] else [COMMA]) + JcsString(ts[0].name) + [COLON] + ts[0].value;
      assert MembersText(ts, first) == head + MembersText(ts[1..], false);
      assert MembersText(ts + [t], first) == head + MembersText(ts[1..] + [t], false);
    }
  }

  /** appendCanonical: false is its error, after which the buffer is of no use. */
  method AppendCanonical(buf: Buffer, v: Value, depth: nat) returns (ok: bool)
    requires NamesDistinct(v)
    modifies buf
    ensures ok == Writable(v, depth)
    ensures ok ==> buf.data == old(buf.data) + Canon(v)
    decreases v, 1
  {
    hide JcsString, ItemsText, MembersText, CanonItems, CanonMembers, Sort, Distinct, CheckSafeInteger, NumberText;
    if depth > MAX_DEPTH {
      return false;
    }
    match v
    case Null =>
      buf.Write(NULL_TEXT);
      return true;
    case Bool(b) =>
      buf.Write(if b then TRUE_TEXT else FALSE_TEXT);
      return true;
    case Num(n) =>
      var text := Es6Number(n);
      NumberWrites(n);
      if text.None? {
        return false;
      }
      buf.Write(NumberText(n));
      return true;
    case Str(s) =>
      AppendJcsString(buf, s);
      return true;
    case Arr(items) =>
      buf.Write([OPEN_BRACKET]);
      ok := AppendItems(buf, items, depth);
      if ok {
        buf.Write([CLOSE_BRACKET]);
        assert buf.data == old(buf.data) + ([OPEN_BRACKET] + ItemsText(CanonItems(items), true) + [CLOSE_BRACKET]);
      }
    case Obj(members) =>
      buf.Write([OPEN_BRACE]);
      ok := AppendMembers(buf, v, depth);
      if ok {
        buf.Write([CLOSE_BRACE]);
        assert buf.data == old(buf.data)
               + ([OPEN_BRACE] + MembersText(Sort(CanonMembers(members), NameOf), true) + [CLOSE_BRACE]);
      }
  }

  lemma NumberWrites(n: Number)
    ensures Es6Number(n).Some? <==> CheckSafeInteger(n).SafeInteger?
  {
  }

  method AppendItems(buf: Buffer, items: seq<Value>, depth: nat) returns (ok: bool)
    requires depth <= MAX_DEPTH && forall i :: 0 <= i < |items| ==> NamesDistinct(items[i])
    modifies buf
    ensures ok == forall i :: 0 <= i < |items| ==> Writable(items[i], depth + 1)
    ensures ok ==> buf.data == old(buf.data) + ItemsText(CanonItems(items), true)
    decreases items, 0
  {
    hide ItemsText, CanonItems, Canon, Writable, NamesDistinct;
    assert ItemsText(CanonItems([]), true) == [] by {
      EmptyTexts();
    }
    for i := 0 to |items|
      invariant forall k :: 0 <= k < i ==> Writable(items[k], depth + 1)
      invariant buf.data == old(buf.data) + ItemsText(CanonItems(items[..i]), true)
    {
      if i > 0 {
        buf.Write([COMMA]);
      }
      var written := AppendCanonical(buf, items[i], depth + 1);
      if !written {
        return false;
      }
      CanonItemsAppend(items[..i], items[i]);
      CanonItemsLength(items[..i]);
      ItemsTextAppend(CanonItems(items[..i]), Canon(items[i]), true);
      assert items[..i + 1] == items[..i] + [items[i]];
    }
    assert items[..|items|] == items;
    return true;
  }

  lemma EmptyTexts()
    ensures ItemsText(CanonItems([]), true) == [] && MembersText(CanonMembers([]), true) == []
  {
  }

  lemma {:induction false} CanonItemsLength(items: seq<Value>)
    ensures |CanonItems(items)| == |items|
  {
    hide Canon;
    if items != [] {
      CanonItemsLength(items[1..]);
    }
  }

  /** The sorted names are the names of the sorted members. */
  lemma SortedNames(members: seq<Member>)
    ensures Sort(Names(members), Self) == Names(Sort(members, NameOf))
    ensures |Names(Sort(members, NameOf))| == |Sort(members, NameOf)|
  {
    hide Sort;
    var sorted := Sort(members, NameOf);
    assert Names(members) == Map(members, NameOf);
    SortMap(members, NameOf, NameOf, Self);
    assert Names(sorted) == Map(sorted, NameOf);
  }

  /** Looking up the i-th sorted name finds the i-th sorted member. */
  lemma SortedLookUp(members: seq<Member>, i: nat) returns (j: nat)
    requires Distinct(Names(members)) && i < |Sort(members, NameOf)|
    ensures j < |members| && members[j] == Sort(members, NameOf)[i]
    ensures Names(Sort(members, NameOf))[i] == members[j].name
    ensures HasName(members, members[j].name) && Lookup(members, members[j].name) == members[j].value
  {
    hide Sort;
    var m := Sort(members, NameOf)[i];
    InSorted(members, NameOf, m);
    UniqueLookup(members, m);
    j :| 0 <= j < |members| && members[j] == m;
  }

  lemma UniqueLookup(members: seq<Member>, m: Member)
    requires m in members && Distinct(Names(members))
    ensures HasName(members, m.name) && Lookup(members, m.name) == m.value
  {
    var i :| 0 <= i < |members| && members[i] == m;
    var j :| 0 <= j < |members| && members[j] == Entry(m.name, Lookup(members, m.name));
    assert Names(members)[i] == Names(members)[j];
  }

  /** The text of the first i members in sorted order. */
  ghost function Written(members: seq<Member>, i: nat): bytes
    requires i <= |Sort(members, NameOf)|
  {
    MembersText(CanonMembers(Sort(members, NameOf)[..i]), true)
  }

  /** The body of the loop over an object: the member of the i-th sorted name. */
  method AppendMember(buf: Buffer, v: Value, name: string, i: nat, depth: nat, ghost base: bytes) returns (ok: bool)
    requires v.Obj? && NamesDistinct(v)
    requires i < |Sort(v.members, NameOf)| && name == Sort(v.members, NameOf)[i].name
    requires buf.data == base + Written(v.members, i)
    modifies buf
    ensures ok == Writable(Sort(v.members, NameOf)[i].value, depth + 1)
    ensures ok ==> buf.data == base + Written(v.members, i + 1)
    decreases v, 0, 0
  {
    hide Canon, Writable, JcsString, Distinct, Sort, MembersText, CanonMembers, Lookup, HasName;
    ghost var j := SortedLookUp(v.members, i);
    MemberWritten(base, Sort(v.members, NameOf), i);
    if i > 0 {
      buf.Write([COMMA]);
    }
    AppendJcsString(buf, name);
    buf.Write([COLON]);
    ok := AppendCanonical(buf, Lookup(v.members, name), depth + 1);
  }

  method AppendMembers(buf: Buffer, v: Value, depth: nat) returns (ok: bool)
    requires depth <= MAX_DEPTH && v.Obj? && NamesDistinct(v)
    modifies buf
    ensures ok == forall i :: 0 <= i < |v.members| ==> Writable(v.members[i].value, depth + 1)
    ensures ok ==> buf.data == old(buf.data) + MembersText(Sort(CanonMembers(v.members), NameOf), true)
    decreases v, 0, 1
  {
    hide MembersText, CanonMembers, Canon, Writable, JcsString, Sort, Distinct, Written, NamesDistinct;
    var keys := Sort(Names(v.members), Self);
    SortedNames(v.members);
    WrittenEnds(v.members);
    for i := 0 to |keys|
      invariant forall k :: 0 <= k < i ==> Writable(Sort(v.members, NameOf)[k].value, depth + 1)
      invariant buf.data == old(buf.data) + Written(v.members, i)
    {
      ok := AppendMember(buf, v, keys[i], i, depth, old(buf.data));
      if !ok {
        NotAllWritable(v.members, i, depth);
        return;
      }
    }
    AllSorted(v.members, depth);
    return true;
  }

  lemma WrittenEnds(members: seq<Member>)
    ensures Written(members, 0) == []
    ensures Written(members, |Sort(members, NameOf)|) == MembersText(Sort(CanonMembers(members), NameOf), true)
  {
    hide Sort;
    var sorted := Sort(members, NameOf);
    EmptyTexts();
    RoundTrip.CanonSorted(members);
    assert sorted[..0] == [] && sorted[..|sorted|] == sorted;
  }

  lemma NotAllWritable(members: seq<Member>, i: nat, depth: nat)
    requires i < |Sort(members, NameOf)| && !Writable(Sort(members, NameOf)[i].value, depth + 1)
    ensures exists j :: 0 <= j < |members| && !Writable(members[j].value, depth + 1)
  {
    hide Sort, Writable;
    var m := Sort(members, NameOf)[i];
    InSorted(members, NameOf, m);
    var j :| 0 <= j < |members| && members[j] == m;
  }

  lemma MemberWritten(base: bytes, sorted: seq<Member>, i: nat)
    requires i < |sorted|
    ensures base + MembersText(CanonMembers(sorted[..i]), true) + (if i > 0 then [COMMA] else [])
            + JcsString(sorted[i].name) + [COLON] + Canon(sorted[i].value)
            == base + MembersText(CanonMembers(sorted[..i + 1]), true)
  {
    hide MembersText, CanonMembers, Canon, JcsString;
    var m := sorted[i];
    CanonMembersAppend(sorted[..i], m);
    assert sorted[..i + 1] == sorted[..i] + [m];
    MembersTextAppend(CanonMembers(sorted[..i]), Entry(m.name, Canon(m.value)), true);
    assert CanonMembers(sorted[..i]) == [] <==> i == 0;
    var t := MembersText(CanonMembers(sorted[..i]), true);
    var comma := if i > 0 then [COMMA] else [];
    assert base + t + comma + JcsString(m.name) + [COLON] + Canon(m.value)
        == base + (t + (comma + JcsString(m.name) + [COLON] + Canon(m.value)));
  }

  lemma AllSorted(members: seq<Member>, depth: nat)
    requires forall k :: 0 <= k < |Sort(members, NameOf)| ==> Writable(Sort(members, NameOf)[k].value, depth + 1)
    ensures forall i :: 0 <= i < |members| ==> Writable(members[i].value, depth + 1)
  {
    hide Sort, Writable;
    var sorted := Sort(members, NameOf);
    SortPermutes(members, NameOf);
    forall i | 0 <= i < |members| ensures Writable(members[i].value, depth + 1) {
      assert members[i] in sorted;
    }
  }

  lemma {:induction false} CanonMembersAppend(ms: seq<Member>, m: Member)
    ensures CanonMembers(ms + [m]) == CanonMembers(ms) + [Entry(m.name, Canon(m.value))]
    ensures |CanonMembers(ms)| == |ms|
  {
    hide Canon;
    if ms == [] {
      assert ms + [m] == [m];
    } else {
      assert (ms + [m])[1..] == ms[1..] + [m];
      CanonMembersAppend(ms[1..], m);
    }
  }

  /** Canonicalize. */
  method CanonicalizeBytes(raw: bytes) returns (r: Result<bytes>)
    ensures r == Canonicalize(raw)
  {
    var v := ParseJsonValue(raw);
    if v.Err? {
      return Err(v.error);
    }
    Parsed.ParseJsonWellFormed(raw, MAX_DEPTH);
    WellFormedNames(v.value);
    var buf := new Buffer();
    var ok := AppendCanonical(buf, v.value, 0);
    if !ok {
      return Err(TooDeep);
    }
    assert buf.data == Canon(v.value);
    return Ok(buf.data);
  }
}
