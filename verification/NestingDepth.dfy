/** One nesting depth, computed in four places: the counter of decodeValue, the
    writer's own check, the bracket scan of the Python rail, and jsonDepth. */
module NestingDepth {
  import opened Core
  import opened Sorting
  import opened Numbers
  import opened Scan
  import opened Json
  import opened Parsed
  import opened Grammar

  // ----- the bracket scan -----

  /** The locals of _max_json_depth. */
  datatype State = State(depth: int, deepest: int, inString: bool, escaped: bool)

  function Advance(st: State, b: byte): State {
    if st.inString then
      if st.escaped then st.(escaped := false)
      else if b == BACKSLASH then st.(escaped := true)
      else if b == QUOTE then st.(inString := false)
      else st
    else if b == QUOTE then st.(inString := true)
    else if b == OPEN_BRACKET || b == OPEN_BRACE then
      State(st.depth + 1, Max(st.deepest, st.depth + 1), false, st.escaped)
    else if b == CLOSE_BRACKET || b == CLOSE_BRACE then st.(depth := st.depth - 1)
    else st
  }

  function Run(st: State, s: bytes): State
    decreases |s|
  {
    if s == [] then st else Run(Advance(st, s[0]), s[1..])
  }

  const START: State := State(0, 0, false, false)

  /** _max_json_depth, over the bytes of the text: brackets, quotes and backslashes
      are single bytes in UTF-8. */
  method MaxJsonDepth(text: bytes) returns (deepest: int)
    ensures deepest == Run(START, text).deepest
  {
    var depth, maxd := 0, 0;
    var inString, escaped := false, false;
    for i := 0 to |text|
      invariant Run(START, text) == Run(State(depth, maxd, inString, escaped), text[i..])
    {
      var ch := text[i];
      assert text[i..][1..] == text[i + 1..];
      if inString {
        if escaped {
          escaped := false;
        } else if ch == BACKSLASH {
          escaped := true;
        } else if ch == QUOTE {
          inString := false;
        }
      } else if ch == QUOTE {
        inString := true;
      } else if ch == OPEN_BRACKET || ch == OPEN_BRACE {
        depth := depth + 1;
        if depth > maxd {
          maxd := depth;
        }
      } else if ch == CLOSE_BRACKET || ch == CLOSE_BRACE {
        depth := depth - 1;
      }
    }
    return maxd;
  }

  function Outside(depth: int, deepest: int): State {
    State(depth, deepest, false, false)
  }

  predicate Inert(p: bytes) {
    forall i :: 0 <= i < |p| ==> p[i] != QUOTE && p[i] != OPEN_BRACKET && p[i] != OPEN_BRACE
                                 && p[i] != CLOSE_BRACKET && p[i] != CLOSE_BRACE
  }

  lemma {:induction false} RunInert(d: int, m: int, p: bytes, rest: bytes)
    requires Inert(p)
    ensures Run(Outside(d, m), p + rest) == Run(Outside(d, m), rest)
  {
    if p == [] {
      assert p + rest == rest;
    } else {
      assert (p + rest)[0] == p[0] && (p + rest)[1..] == p[1..] + rest;
      RunInert(d, m, p[1..], rest);
    }
  }

  lemma {:induction false} RunSpace(d: int, m: int, s: bytes)
    ensures Run(Outside(d, m), s) == Run(Outside(d, m), SkipSpace(s))
  {
    if s != [] && IsSpace(s[0]) {
      RunSpace(d, m, s[1..]);
    }
  }

  /** The scan leaves a string where the grammar closes it. */
  lemma {:induction false} RunBody(d: int, m: int, s: bytes)
    requires LexBody(s).Some?
    ensures Run(State(d, m, true, false), s) == Run(Outside(d, m), s[LexBody(s).value..])
    decreases |s|
  {
    hide Hex4, ShortChar;
    var st := State(d, m, true, false);
    if s[0] == QUOTE {
    } else if s[0] == BACKSLASH {
      assert Run(st, s) == Run(st.(escaped := true), s[1..]);
      assert s[1..][1..] == s[2..];
      assert Run(st, s) == Run(st, s[2..]);
      if |s| >= 6 && s[1] == 0x75 && Hex4(s[2..]).Some? {
        RunHex(st, s[2..]);
        assert s[2..][4..] == s[6..];
        RunBody(d, m, s[6..]);
      } else {
        RunBody(d, m, s[2..]);
      }
    } else {
      RunBody(d, m, s[1..]);
    }
  }

  lemma RunHex(st: State, h: bytes)
    requires Hex4(h).Some? && st.inString && !st.escaped
    ensures Run(st, h) == Run(st, h[4..])
  {
    assert h[1..][1..] == h[2..] && h[2..][1..] == h[3..] && h[3..][1..] == h[4..];
    assert Run(st, h) == Run(st, h[1..]) == Run(st, h[2..]) == Run(st, h[3..]);
  }

  lemma RunString(d: int, m: int, t: bytes)
    requires ParseString(t).Ok?
    ensures Run(Outside(d, m), t) == Run(Outside(d, m), ParseString(t).value.rest)
  {
    hide LexBody, Unquote;
    RunBody(d, m, t[1..]);
    assert t[1..][LexBody(t[1..]).value..] == ParseString(t).value.rest;
  }

  lemma RunScalar(d: int, m: int, t: bytes)
    requires t != [] && t[0] != OPEN_BRACE && t[0] != OPEN_BRACKET && ReadScalar(t).Some?
    ensures Run(Outside(d, m), t) == Run(Outside(d, m), ReadScalar(t).value.rest)
    ensures Depth(ReadScalar(t).value.token) == 0
  {
    hide ParseString, LexNumber, LiteralText, Run;
    var rest := ReadScalar(t).value.rest;
    if t[0] == MINUS || IsDigit(t[0]) {
      var l := LexNumber(t).value.token;
      NumberInert(l);
      RunInert(d, m, LiteralText(l), rest);
    } else if t[0] == QUOTE {
      RunString(d, m, t);
    } else {
      var word := if t[0] == 0x74 then TRUE_TEXT else if t[0] == 0x66 then FALSE_TEXT else NULL_TEXT;
      assert t == word + rest;
      RunInert(d, m, word, rest);
    }
  }

  lemma NumberInert(l: Literal)
    requires LiteralOk(l)
    ensures Inert(LiteralText(l))
  {
    DigitsInert(l.whole);
    if l.frac.Some? { DigitsInert(l.frac.value); }
    if l.exp.Some? { DigitsInert(l.exp.value.digits); }
  }

  lemma DigitsInert(ds: bytes)
    requires AllDigits(ds)
    ensures Inert(ds)
  {
    forall i | 0 <= i < |ds| ensures IsDigit(ds[i]) {
      assert ds[i] in ds;
    }
  }

  lemma {:induction false} ItemsDepthAppend(items: seq<Value>, v: Value)
    ensures ItemsDepth(items + [v]) == Max(ItemsDepth(items), Depth(v))
  {
    hide Depth;
    if items == [] {
      assert items + [v] == [v];
    } else {
      assert (items + [v])[1..] == items[1..] + [v];
      ItemsDepthAppend(items[1..], v);
    }
  }

  lemma {:induction false} MembersDepthAppend(members: seq<Member>, m: Member)
    ensures MembersDepth(members + [m]) == Max(MembersDepth(members), Depth(m.value))
  {
    hide Depth;
    if members == [] {
      assert members + [m] == [m];
    } else {
      assert (members + [m])[1..] == members[1..] + [m];
      MembersDepthAppend(members[1..], m);
    }
  }

  /** Over one value of the grammar the scan returns to its depth and has seen the
      value's. */
  lemma {:induction false} RunValue(d: int, m: int, s: bytes)
    requires ReadValue(s).Some? && d <= m
    ensures var r := ReadValue(s).value;
            Run(Outside(d, m), s) == Run(Outside(d, Max(m, d + Depth(r.token))), r.rest)
    decreases |s|, 0
  {
    hide ReadScalar, ReadItems, ReadMembers, SkipSpace;
    var t := SkipSpace(s);
    RunSpace(d, m, s);
    if t[0] == OPEN_BRACE {
      RunMembers(d + 1, Max(m, d + 1), t[1..], []);
    } else if t[0] == OPEN_BRACKET {
      RunItems(d + 1, Max(m, d + 1), t[1..], []);
    } else {
      RunScalar(d, m, t);
    }
  }

  lemma {:induction false} RunItems(d: int, m: int, s: bytes, acc: seq<Value>)
    requires ReadItems(s, acc).Some? && d + ItemsDepth(acc) <= m
    ensures var r := ReadItems(s, acc).value;
            && Run(Outside(d, m), s) == Run(Outside(d - 1, Max(m, d + ItemsDepth(r.token))), r.rest)
            && ItemsDepth(r.token) >= ItemsDepth(acc)
    decreases |s|, 1
  {
    hide ReadValue, SkipSpace, Run, ItemsDepth;
    var t := SkipSpace(s);
    RunSpace(d, m, s);
    RunByte(d, m, t);
    if t[0] != CLOSE_BRACKET {
      var u := if acc == [] then t else t[1..];
      RunValue(d, m, u);
      var v := ReadValue(u).value;
      ItemsDepthAppend(acc, v.token);
      RunItems(d, Max(m, d + Depth(v.token)), v.rest, acc + [v.token]);
    }
  }

  lemma RunByte(d: int, m: int, t: bytes)
    requires t != []
    ensures t[0] == CLOSE_BRACKET || t[0] == CLOSE_BRACE ==> Run(Outside(d, m), t) == Run(Outside(d - 1, m), t[1..])
    ensures t[0] == COMMA || t[0] == COLON ==> Run(Outside(d, m), t) == Run(Outside(d, m), t[1..])
  {
  }

  lemma {:induction false} RunMembers(d: int, m: int, s: bytes, acc: seq<Member>)
    requires ReadMembers(s, acc).Some? && d + MembersDepth(acc) <= m
    ensures var r := ReadMembers(s, acc).value;
            && Run(Outside(d, m), s) == Run(Outside(d - 1, Max(m, d + MembersDepth(r.token))), r.rest)
            && MembersDepth(r.token) >= MembersDepth(acc)
    decreases |s|, 1
  {
    hide ReadValue, SkipSpace, Run, ReadName, MembersDepth;
    var t := SkipSpace(s);
    RunSpace(d, m, s);
    RunByte(d, m, t);
    if t[0] != CLOSE_BRACE {
      var u := if acc == [] then t else t[1..];
      RunName(d, m, u);
      var name := ReadName(u).value;
      RunValue(d, m, name.rest);
      var v := ReadValue(name.rest).value;
      var entry := Entry(name.token, v.token);
      MembersDepthAppend(acc, entry);
      RunMembers(d, Max(m, d + Depth(v.token)), v.rest, acc + [entry]);
    }
  }

  lemma RunName(d: int, m: int, s: bytes)
    requires ReadName(s).Some?
    ensures Run(Outside(d, m), s) == Run(Outside(d, m), ReadName(s).value.rest)
  {
    hide ParseString, Run, SkipSpace;
    var t := SkipSpace(s);
    RunSpace(d, m, s);
    RunString(d, m, t);
    var rest := ParseString(t).value.rest;
    RunSpace(d, m, rest);
    RunByte(d, m, SkipSpace(rest));
  }

  // ----- the decoder's counter -----

  /** Lowering the bound changes nothing up to the value's depth, and makes the
      answer "too deep" below it. */
  lemma BoundDecides(s: bytes, depth: nat, high: nat, low: nat)
    requires ParseValue(s, depth, high).Ok? && depth <= low <= high
    ensures ParseValue(s, depth, low) ==
            if depth + Depth(ParseValue(s, depth, high).value.token) <= low then ParseValue(s, depth, high)
            else Err(TooDeep)
  {
    hide ParseValue, ReadValue, Events, Depth, FaultOf, OffProfile, TooFar, FirstFault;
    StrictReads(s, depth, high);
    StrictValue(s, depth, high);
    StrictValue(s, depth, low);
    var v := ReadValue(s).value.token;
    var es := Events(v, depth);
    var none := FirstFaultAt(es, high);
    var i := FirstFaultAt(es, low);
    EventsShow(v, depth, low);
    forall j | 0 <= j < |es| ensures FaultOf(es[j], low) == if TooFar(es[j], low) then Some(TooDeep) else None {
      FaultKinds(es[j], low);
      FaultKinds(es[j], high);
    }
    if i < |es| {
      assert es[i] in es;
    } else {
      forall e | e in es ensures !TooFar(e, low) {
        var j :| 0 <= j < |es| && es[j] == e;
      }
    }
  }

  // ----- jsonDepth -----

  /** jsonDepth: a scalar sits at level - 1. */
  method JsonDepth(node: Value, level: int) returns (deepest: int)
    ensures deepest == level - 1 + Depth(node)
    decreases node
  {
    deepest := level;
    match node
    case Obj(members) =>
      for i := 0 to |members|
        invariant deepest == level + MembersDepth(members[..i])
      {
        var d := JsonDepth(members[i].value, level + 1);
        assert members[..i + 1] == members[..i] + [members[i]];
        MembersDepthAppend(members[..i], members[i]);
        if d > deepest {
          deepest := d;
        }
      }
      assert members[..|members|] == members;
    case Arr(items) =>
      for i := 0 to |items|
        invariant deepest == level + ItemsDepth(items[..i])
      {
        var d := JsonDepth(items[i], level + 1);
        assert items[..i + 1] == items[..i] + [items[i]];
        ItemsDepthAppend(items[..i], items[i]);
        if d > deepest {
          deepest := d;
        }
      }
      assert items[..|items|] == items;
    case _ =>
      deepest := level - 1;
  }

  // ----- what jsonDepth is given -----

  /** json.Unmarshal into an empty interface: of a repeated member the last is kept. */
  function Collapse(v: Value): Value
    decreases v, 1
  {
    match v
    case Arr(items) => Arr(CollapseItems(items))
    case Obj(members) => Obj(CollapseMembers(members))
    case _ => v
  }

  function CollapseItems(items: seq<Value>): seq<Value>
    decreases items, 0
  {
    if items == [] then [] else [Collapse(items[0])] + CollapseItems(items[1..])
  }

  function CollapseMembers(members: seq<Member>): seq<Member>
    decreases members, 0
  {
    if members == [] then []
    else
      (if HasName(members[1..], members[0].name) then [] else [Entry(members[0].name, Collapse(members[0].value))])
      + CollapseMembers(members[1..])
  }

  /** The member is not overwritten by a later one. */
  predicate Kept(members: seq<Member>, k: nat)
    requires k < |members|
  {
    !HasName(members[k + 1..], members[k].name)
  }

  /** |path| + 1 nested containers of the document, reached through kept members. */
  predicate Survives(v: Value, path: seq<nat>)
    decreases |path|
  {
    match v
    case Arr(items) => path == [] || (path[0] < |items| && Survives(items[path[0]], path[1..]))
    case Obj(members) =>
      path == [] || (path[0] < |members| && Kept(members, path[0]) && Survives(members[path[0]].value, path[1..]))
    case _ => false
  }

  lemma {:induction false} ItemDeeper(items: seq<Value>, k: nat, n: nat)
    requires k < |items| && Depth(Collapse(items[k])) > n
    ensures ItemsDepth(CollapseItems(items)) > n
  {
    hide Depth, Collapse;
    if k > 0 {
      ItemDeeper(items[1..], k - 1, n);
    }
    assert CollapseItems(items)[1..] == CollapseItems(items[1..]);
  }

  lemma {:induction false} MemberDeeper(members: seq<Member>, k: nat, n: nat)
    requires k < |members| && Kept(members, k) && Depth(Collapse(members[k].value)) > n
    ensures MembersDepth(CollapseMembers(members)) > n
  {
    hide Depth, Collapse, HasName;
    if k > 0 {
      assert members[1..][k..] == members[k + 1..];
      MemberDeeper(members[1..], k - 1, n);
    }
    DropsOne(members);
  }

  lemma DropsOne(members: seq<Member>)
    requires members != []
    ensures var d := MembersDepth(CollapseMembers(members[1..]));
            MembersDepth(CollapseMembers(members)) == if Kept(members, 0) then Max(Depth(Collapse(members[0].value)), d) else d
  {
    hide Depth, Collapse, HasName;
    var further := CollapseMembers(members[1..]);
    if Kept(members, 0) {
      assert CollapseMembers(members) == [Entry(members[0].name, Collapse(members[0].value))] + further;
      assert CollapseMembers(members)[1..] == further;
    } else {
      assert CollapseMembers(members) == further;
    }
  }

  lemma {:induction false} SurvivorCounts(v: Value, path: seq<nat>)
    requires Survives(v, path)
    ensures Depth(Collapse(v)) > |path|
    decreases |path|
  {
    hide HasName;
    if path != [] {
      match v
      case Arr(items) =>
        SurvivorCounts(items[path[0]], path[1..]);
        ItemDeeper(items, path[0], |path| - 1);
      case Obj(members) =>
        SurvivorCounts(members[path[0]].value, path[1..]);
        MemberDeeper(members, path[0], |path| - 1);
    }
  }

  lemma {:induction false} Survivor(v: Value, n: nat) returns (path: seq<nat>)
    requires Depth(Collapse(v)) > n
    ensures |path| == n && Survives(v, path)
    decreases v, 1
  {
    hide HasName;
    path := [];
    if n > 0 {
      match v
      case Arr(items) =>
        var k, further := SurvivingItem(items, n - 1);
        path := [k] + further;
      case Obj(members) =>
        var k, further := SurvivingMember(members, n - 1);
        path := [k] + further;
      case _ =>
    }
  }

  lemma {:induction false} SurvivingItem(items: seq<Value>, n: nat) returns (k: nat, path: seq<nat>)
    requires ItemsDepth(CollapseItems(items)) > n
    ensures k < |items| && |path| == n && Survives(items[k], path)
    decreases items, 0
  {
    hide Depth, Collapse, Survives;
    assert CollapseItems(items)[1..] == CollapseItems(items[1..]);
    if Depth(Collapse(items[0])) > n {
      k := 0;
      path := Survivor(items[0], n);
    } else {
      k, path := SurvivingItem(items[1..], n);
      k := k + 1;
    }
  }

  lemma {:induction false} SurvivingMember(members: seq<Member>, n: nat) returns (k: nat, path: seq<nat>)
    requires MembersDepth(CollapseMembers(members)) > n
    ensures k < |members| && Kept(members, k) && |path| == n && Survives(members[k].value, path)
    decreases members, 0
  {
    hide Depth, Collapse, Survives, HasName;
    assert members != [];
    DropsOne(members);
    if Kept(members, 0) && Depth(Collapse(members[0].value)) > n {
      k := 0;
      path := Survivor(members[0].value, n);
    } else {
      k, path := SurvivingMember(members[1..], n);
      assert members[1..][k + 1..] == members[k + 2..];
      k := k + 1;
    }
  }

  /** Nothing is lost where no member is repeated. */
  lemma {:induction false} CollapseNothing(v: Value)
    requires NoRepeats(v)
    ensures Collapse(v) == v
    decreases v, 1
  {
    match v
    case Arr(items) => CollapseNoItem(items);
    case Obj(members) => CollapseNoMember(members);
    case _ =>
  }

  lemma {:induction false} CollapseNoItem(items: seq<Value>)
    requires forall i :: 0 <= i < |items| ==> NoRepeats(items[i])
    ensures CollapseItems(items) == items
    decreases items, 0
  {
    hide NoRepeats, Collapse;
    if items != [] {
      CollapseNothing(items[0]);
      CollapseNoItem(items[1..]);
    }
  }

  lemma {:induction false} CollapseNoMember(members: seq<Member>)
    requires Distinct(Names(members)) && forall i :: 0 <= i < |members| ==> NoRepeats(members[i].value)
    ensures CollapseMembers(members) == members
    decreases members, 0
  {
    hide NoRepeats, Collapse;
    if members != [] {
      var further := members[1..];
      CollapseNothing(members[0].value);
      assert Names(further) == Names(members)[1..];
      forall i, j | 0 <= i < j < |Names(further)| ensures Names(further)[i] != Names(further)[j] {
        assert Names(members)[i + 1] != Names(members)[j + 1];
      }
      CollapseNoMember(further);
      forall i | 0 <= i < |further| ensures further[i].name != members[0].name {
        assert Names(members)[0] != Names(members)[i + 1];
      }
    }
  }

  /** Collapsing never deepens. */
  lemma CollapseShallower(v: Value)
    ensures Depth(Collapse(v)) <= Depth(v)
  {
    if Depth(Collapse(v)) > Depth(v) {
      var path := Survivor(v, Depth(v));
      PathWithin(v, path);
    }
  }

  lemma {:induction false} PathWithin(v: Value, path: seq<nat>)
    requires Survives(v, path)
    ensures |path| < Depth(v)
    decreases |path|
  {
    if path != [] {
      match v
      case Arr(items) => PathWithin(items[path[0]], path[1..]);
      case Obj(members) => PathWithin(members[path[0]].value, path[1..]);
    }
  }

  /** jsonDepth, on what it is given, exceeds a bound exactly when that many containers
      and one more are nested along kept members; it never exceeds the depth of the
      document and is that depth where no member is repeated. */
  lemma JsonDepthExactly(v: Value, bound: nat)
    ensures Depth(Collapse(v)) > bound <==> exists path :: |path| == bound && Survives(v, path)
    ensures Depth(Collapse(v)) <= Depth(v)
    ensures NoRepeats(v) ==> Depth(Collapse(v)) == Depth(v)
  {
    hide Depth, Collapse, Survives, NoRepeats;
    CollapseShallower(v);
    if NoRepeats(v) {
      CollapseNothing(v);
    }
    if Depth(Collapse(v)) > bound {
      var path := Survivor(v, bound);
    }
    if path :| |path| == bound && Survives(v, path) {
      SurvivorCounts(v, path);
    }
  }

  /** The value of {"a":[],"a":null}. */
  const OVERWRITTEN: Value := Obj([Entry("a", Arr([])), Entry("a", Null)])

  /** On a repeated member jsonDepth can miss a level that the other three count. */
  lemma JsonDepthMisses()
    ensures Depth(OVERWRITTEN) == 2 && Depth(Collapse(OVERWRITTEN)) == 1
  {
    var members := OVERWRITTEN.members;
    assert members[1..] == [members[1]] && members[1..][1..] == [];
    assert HasName(members[1..], "a") by { assert members[1..][0].name == "a"; }
    assert CollapseMembers(members[1..]) == [members[1]];
    assert MembersDepth([members[1]]) == 0;
    DropsOne(members);
    assert Depth(Arr([])) == 1;
  }

  // ----- agreement -----

  /** On every syntactically valid document the bracket scan measures the depth of the
      value, the decoder answers "too deep" exactly past MAX_DEPTH where no number off
      the profile and no repeated member is read before, and the writer's own check
      never fires on what the decoder let through. */
  lemma OneDepth(raw: bytes)
    requires Grammatical(raw).Some?
    ensures var v := Grammatical(raw).value;
            && Run(START, raw).deepest == Depth(v)
            && (ParseJson(raw) == Err(TooDeep) <==> Depth(v) > MAX_DEPTH && !Preempted(v, MAX_DEPTH))
            && (ParseJson(raw).Ok? ==> ParseJson(raw).value == v && Depth(v) <= MAX_DEPTH && Writable(v, 0))
  {
    hide ReadValue, Run, Depth, Writable, Events, FirstFault, Preempted, NumberFirst, NoRepeats, Profiled, ParseWithin;
    var r := ReadValue(raw).value;
    RunValue(0, 0, raw);
    RunSpace(0, Depth(r.token), r.rest);
    RunNothing(0, Depth(r.token));
    StrictExactly(raw, MAX_DEPTH);
    FirstFaultMeans(r.token, MAX_DEPTH);
    if ParseJson(raw).Ok? {
      ParsedWritable(raw);
      ParseJsonWellFormed(raw, MAX_DEPTH);
    }
  }

  /** A document with neither number off the profile nor repeated member is too deep for
      one of the four exactly when it is for all. */
  lemma DepthsAgree(raw: bytes)
    requires Grammatical(raw).Some? && Profiled(Grammatical(raw).value) && NoRepeats(Grammatical(raw).value)
    ensures var v := Grammatical(raw).value;
            && (ParseJson(raw) == Err(TooDeep) <==> Run(START, raw).deepest > MAX_DEPTH)
            && (Depth(Collapse(v)) > MAX_DEPTH <==> Run(START, raw).deepest > MAX_DEPTH)
  {
    hide Run, Depth, Events, NoRepeats, Profiled, ParseWithin, Collapse, Preempted, Grammatical, OffProfile;
    var v := Grammatical(raw).value;
    OneDepth(raw);
    JsonDepthExactly(v, MAX_DEPTH);
    EventsShow(v, 0, MAX_DEPTH);
    NothingPreempts(v, MAX_DEPTH);
  }

  lemma NothingPreempts(v: Value, limit: nat)
    requires Profiled(v) && NoRepeats(v)
    ensures !Preempted(v, limit)
  {
    hide NoRepeats, Profiled, OffProfile, Events, Depth;
    EventsShow(v, 0, limit);
    forall e | e in Events(v, 0) ensures !OffProfile(e) && e != Repeated {}
  }

  lemma RunNothing(d: int, m: int)
    ensures Run(Outside(d, m), []) == Outside(d, m)
  {
  }
}
