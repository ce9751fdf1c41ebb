/** JSON documents by their grammar alone (RFC 8259), and the strict pass of aee/jcs.go
    as a walk over the document so read: its first fault in document order decides. */
module Grammar {
  import opened Core
  import opened Sorting
  import opened Numbers
  import opened Scan
  import opened Json
  import RoundTrip

  // ----- the grammar -----

  function ReadScalar(t: bytes): (r: Option<Lexed<Value>>)
    requires t != []
    ensures r.Some? ==> |r.value.rest| < |t|
  {
    if t[0] == MINUS || IsDigit(t[0]) then
      var n := LexNumber(t);
      if n.None? then None else Some(Lexed(Num(n.value.token), n.value.rest))
    else
      var v := ParseScalar(t);
      if v.Err? then None else Some(v.value)
  }

  /** One value at the front: numbers are lexed and not judged, repeated members are
      kept, nesting is unbounded. */
  function ReadValue(s: bytes): (r: Option<Lexed<Value>>)
    ensures r.Some? ==> |r.value.rest| < |s|
    decreases |s|, 0
  {
    var t := SkipSpace(s);
    if t == [] then None
    else if t[0] == OPEN_BRACE then
      var ms := ReadMembers(t[1..], []);
      if ms.None? then None else Some(Lexed(Obj(ms.value.token), ms.value.rest))
    else if t[0] == OPEN_BRACKET then
      var items := ReadItems(t[1..], []);
      if items.None? then None else Some(Lexed(Arr(items.value.token), items.value.rest))
    else ReadScalar(t)
  }

  function ReadItems(s: bytes, acc: seq<Value>): (r: Option<Lexed<seq<Value>>>)
    ensures r.Some? ==> |r.value.rest| < |s| && acc <= r.value.token
    decreases |s|, 1
  {
    var t := SkipSpace(s);
    if t == [] then None
    else if t[0] == CLOSE_BRACKET then Some(Lexed(acc, t[1..]))
    else if acc != [] && t[0] != COMMA then None
    else
      var v := ReadValue(if acc == [] then t else t[1..]);
      if v.None? then None else ReadItems(v.value.rest, acc + [v.value.token])
  }

  function ReadMembers(s: bytes, acc: seq<Member>): (r: Option<Lexed<seq<Member>>>)
    ensures r.Some? ==> |r.value.rest| < |s| && acc <= r.value.token
    decreases |s|, 1
  {
    var t := SkipSpace(s);
    if t == [] then None
    else if t[0] == CLOSE_BRACE then Some(Lexed(acc, t[1..]))
    else if acc != [] && t[0] != COMMA then None
    else
      var name := ReadName(if acc == [] then t else t[1..]);
      if name.None? then None
      else
        var v := ReadValue(name.value.rest);
        if v.None? then None else ReadMembers(v.value.rest, acc + [Entry(name.value.token, v.value.token)])
  }

  function ReadName(s: bytes): (r: Option<Lexed<string>>)
    ensures r.Some? ==> |r.value.rest| < |s|
  {
    var name := ParseString(SkipSpace(s));
    if name.Err? then None
    else
      var t := SkipSpace(name.value.rest);
      if t == [] || t[0] != COLON then None else Some(Lexed(name.value.token, t[1..]))
  }

  /** The value of a syntactically valid document. */
  function Grammatical(raw: bytes): Option<Value> {
    var v := ReadValue(raw);
    if v.Some? && SkipSpace(v.value.rest) == [] then Some(v.value.token) else None
  }

  // ----- what a reader meets, in document order -----

  /** A container opened inside `depth` others, a member name its object already has, a
      number token. */
  datatype Event = Opened(depth: nat) | Repeated | Token(n: Number)

  function Events(v: Value, depth: nat): seq<Event>
    decreases v, 0
  {
    match v
    case Num(n) => [Token(n)]
    case Arr(items) => [Opened(depth)] + ItemsEvents(items, depth + 1)
    case Obj(members) => [Opened(depth)] + MembersEvents(members, 0, depth + 1)
    case _ => []
  }

  function ItemsEvents(items: seq<Value>, depth: nat): seq<Event>
    decreases items, |items|
  {
    if items == [] then [] else Events(items[0], depth) + ItemsEvents(items[1..], depth)
  }

  /** From member k on. */
  function MembersEvents(members: seq<Member>, k: nat, depth: nat): seq<Event>
    requires k <= |members|
    decreases members, |members| - k
  {
    if k == |members| then []
    else NameEvents(members, k) + Events(members[k].value, depth) + MembersEvents(members, k + 1, depth)
  }

  function NameEvents(members: seq<Member>, k: nat): seq<Event>
    requires k < |members|
  {
    if HasName(members[..k], members[k].name) then [Repeated] else []
  }

  /** Past the nesting bound. */
  predicate TooFar(e: Event, limit: nat) {
    e.Opened? && e.depth >= limit
  }

  /** A number that is no integer of magnitude below 2^53. */
  ghost predicate OffProfile(e: Event) {
    e.Token? && forall n: int :: Numbers.Value(e.n) == n as real ==> !Safe(n)
  }

  /** The first fault of a walk, and the error the walk stops with. */
  function FaultOf(e: Event, limit: nat): Option<ParseError> {
    match e
    case Opened(depth) => if depth >= limit then Some(TooDeep) else None
    case Repeated => Some(DuplicateMember)
    case Token(n) =>
      match CheckSafeInteger(n)
      case NonInteger => Some(NonIntegerNumber)
      case UnsafeInteger => Some(UnsafeNumber)
      case SafeInteger(_) => None
  }

  function FirstFault(es: seq<Event>, limit: nat): Option<ParseError> {
    if es == [] then None
    else if FaultOf(es[0], limit).Some? then FaultOf(es[0], limit)
    else FirstFault(es[1..], limit)
  }

  lemma {:induction false} FirstOfTwo(a: seq<Event>, b: seq<Event>, limit: nat)
    ensures FirstFault(a + b, limit) == if FirstFault(a, limit).Some? then FirstFault(a, limit) else FirstFault(b, limit)
  {
    hide FaultOf;
    if a == [] {
      assert a + b == b;
    } else {
      assert (a + b)[1..] == a[1..] + b;
      FirstOfTwo(a[1..], b, limit);
    }
  }

  lemma {:induction false} FirstFaultAt(es: seq<Event>, limit: nat) returns (i: nat)
    ensures i <= |es| && forall j :: 0 <= j < i ==> FaultOf(es[j], limit).None?
    ensures FirstFault(es, limit) == if i < |es| then FaultOf(es[i], limit) else None
    ensures i < |es| ==> FaultOf(es[i], limit).Some?
  {
    hide FaultOf;
    i := 0;
    if es != [] && FaultOf(es[0], limit).None? {
      var k := FirstFaultAt(es[1..], limit);
      i := k + 1;
      forall j | 0 <= j < i ensures FaultOf(es[j], limit).None? {
        if j > 0 {
          assert es[j] == es[1..][j - 1];
        }
      }
    }
  }

  // ----- the strict pass is that walk -----

  function Verdict<T>(fault: Option<ParseError>, v: T): Result<T> {
    if fault.Some? then Err(fault.value) else Ok(v)
  }

  lemma StrictScalar(t: bytes, depth: nat, limit: nat)
    requires t != [] && t[0] != OPEN_BRACE && t[0] != OPEN_BRACKET && ReadScalar(t).Some?
    ensures ParseScalar(t) == Verdict(FirstFault(Events(ReadScalar(t).value.token, depth), limit), ReadScalar(t).value)
  {
    hide ParseString, LexNumber, CheckSafeInteger;
    var v := ReadScalar(t).value.token;
    if v.Num? {
      assert Events(v, depth)[1..] == [];
    }
  }

  /** On every value of the grammar the strict decoder stops with the first fault of the
      walk, and otherwise returns the value. */
  lemma {:induction false} StrictValue(s: bytes, depth: nat, limit: nat)
    requires ReadValue(s).Some?
    ensures ParseValue(s, depth, limit) == Verdict(FirstFault(Events(ReadValue(s).value.token, depth), limit), ReadValue(s).value)
    decreases |s|, 0
  {
    hide ReadScalar, ParseScalar, ReadItems, ReadMembers, ParseItems, ParseMembers, ItemsEvents, MembersEvents, SkipSpace;
    var t := SkipSpace(s);
    var r := ReadValue(s).value;
    if t[0] == OPEN_BRACE {
      var inside := MembersEvents(r.token.members, 0, depth + 1);
      FirstOfTwo([Opened(depth)], inside, limit);
      if depth < limit {
        StrictMembers(t[1..], depth, limit, []);
      }
    } else if t[0] == OPEN_BRACKET {
      var inside := ItemsEvents(r.token.items, depth + 1);
      FirstOfTwo([Opened(depth)], inside, limit);
      if depth < limit {
        StrictItems(t[1..], depth, limit, []);
        assert r.token.items[0..] == r.token.items;
      }
    } else {
      StrictScalar(t, depth, limit);
    }
  }

  lemma {:induction false} StrictItems(s: bytes, depth: nat, limit: nat, acc: seq<Value>)
    requires ReadItems(s, acc).Some?
    ensures var r := ReadItems(s, acc).value;
            ParseItems(s, depth, limit, acc)
            == Verdict(FirstFault(ItemsEvents(r.token[|acc|..], depth + 1), limit), Lexed(Arr(r.token), r.rest))
    decreases |s|, 1
  {
    hide ReadValue, ParseValue, Events, SkipSpace, FaultOf;
    var t := SkipSpace(s);
    var r := ReadItems(s, acc).value;
    if t[0] == CLOSE_BRACKET {
      assert r.token[|acc|..] == [];
    } else {
      var u := if acc == [] then t else t[1..];
      var v := ReadValue(u).value;
      NoValueAtClose(u);
      StrictValue(u, depth + 1, limit);
      StrictItems(v.rest, depth, limit, acc + [v.token]);
      assert r.token[|acc|] == v.token;
      assert r.token[|acc|..][1..] == r.token[|acc| + 1..];
      FirstOfTwo(Events(v.token, depth + 1), ItemsEvents(r.token[|acc| + 1..], depth + 1), limit);
    }
  }

  /** A closing delimiter starts no value. */
  lemma NoValueAtClose(u: bytes)
    requires ReadValue(u).Some?
    ensures u != [] && u[0] != CLOSE_BRACE && u[0] != CLOSE_BRACKET
  {
    hide ReadItems, ReadMembers, LexNumber;
  }

  lemma {:induction false} StrictMembers(s: bytes, depth: nat, limit: nat, acc: seq<Member>)
    requires ReadMembers(s, acc).Some?
    ensures var r := ReadMembers(s, acc).value;
            ParseMembers(s, depth, limit, acc)
            == Verdict(FirstFault(MembersEvents(r.token, |acc|, depth + 1), limit), Lexed(Obj(r.token), r.rest))
    decreases |s|, 1
  {
    hide ReadValue, ParseValue, Events, SkipSpace, ReadName, ParseName, HasName;
    var t := SkipSpace(s);
    var r := ReadMembers(s, acc).value;
    if t[0] != CLOSE_BRACE {
      var u := if acc == [] then t else t[1..];
      var name := ReadName(u).value;
      var v := ReadValue(name.rest).value;
      StrictName(u, acc);
      StrictValue(name.rest, depth + 1, limit);
      StrictMembers(v.rest, depth, limit, acc + [Entry(name.token, v.token)]);
      assert r.token[..|acc|] == acc && r.token[|acc|] == Entry(name.token, v.token);
      var first, second := NameEvents(r.token, |acc|), Events(v.token, depth + 1);
      var further := MembersEvents(r.token, |acc| + 1, depth + 1);
      FirstOfTwo(first + second, further, limit);
      FirstOfTwo(first, second, limit);
      assert HasName(acc, name.token) ==> first[1..] == [];
    }
  }

  lemma StrictName(u: bytes, acc: seq<Member>)
    requires ReadName(u).Some?
    ensures ParseName(u, acc) == if HasName(acc, ReadName(u).value.token) then Err(DuplicateMember) else Ok(ReadName(u).value)
    ensures u != [] && u[0] != CLOSE_BRACKET && u[0] != CLOSE_BRACE && u[0] != COMMA
  {
    hide ParseString, HasName;
    assert ParseString(SkipSpace(u)).Ok?;
    StringOpens(SkipSpace(u));
  }

  lemma StringOpens(t: bytes)
    requires ParseString(t).Ok?
    ensures t != [] && t[0] == QUOTE
  {
  }

  /** The strict pass over every document of the grammar. */
  lemma StrictExactly(raw: bytes, limit: nat)
    requires Grammatical(raw).Some?
    ensures var v := Grammatical(raw).value;
            var fault := FirstFault(Events(v, 0), limit);
            ParseWithin(raw, limit) == if fault.Some? then Err(fault.value) else if ScanDocument(raw) then Ok(v) else Err(NotScalar)
  {
    hide ReadValue, ParseValue, Events, ScanDocument, SkipSpace;
    StrictValue(raw, 0, limit);
  }

  /** Whatever the strict decoder returns is of the grammar. */
  lemma {:induction false} StrictReads(s: bytes, depth: nat, limit: nat)
    requires ParseValue(s, depth, limit).Ok?
    ensures ReadValue(s) == Some(ParseValue(s, depth, limit).value)
    decreases |s|, 0
  {
    hide ParseScalar, ReadItems, ReadMembers, ParseItems, ParseMembers, SkipSpace;
    var t := SkipSpace(s);
    if t[0] == OPEN_BRACE {
      StrictReadsMembers(t[1..], depth, limit, []);
    } else if t[0] == OPEN_BRACKET {
      StrictReadsItems(t[1..], depth, limit, []);
    } else {
      ScalarReads(t);
    }
  }

  lemma ScalarReads(t: bytes)
    requires t != [] && ParseScalar(t).Ok?
    ensures ReadScalar(t) == Some(ParseScalar(t).value)
  {
    hide ParseString, LexNumber, CheckSafeInteger;
  }

  lemma {:induction false} StrictReadsItems(s: bytes, depth: nat, limit: nat, acc: seq<Value>)
    requires ParseItems(s, depth, limit, acc).Ok?
    ensures ReadItems(s, acc).Some?
    ensures var r := ReadItems(s, acc).value; ParseItems(s, depth, limit, acc).value == Lexed(Arr(r.token), r.rest)
    decreases |s|, 1
  {
    hide ReadValue, ParseValue, SkipSpace;
    var t := SkipSpace(s);
    if t[0] != CLOSE_BRACKET {
      var u := if acc == [] then t else t[1..];
      StrictReads(u, depth + 1, limit);
      var v := ReadValue(u).value;
      StrictReadsItems(v.rest, depth, limit, acc + [v.token]);
    }
  }

  lemma {:induction false} StrictReadsMembers(s: bytes, depth: nat, limit: nat, acc: seq<Member>)
    requires ParseMembers(s, depth, limit, acc).Ok?
    ensures ReadMembers(s, acc).Some?
    ensures var r := ReadMembers(s, acc).value; ParseMembers(s, depth, limit, acc).value == Lexed(Obj(r.token), r.rest)
    decreases |s|, 1
  {
    hide ReadValue, ParseValue, SkipSpace, ParseString, HasName;
    var t := SkipSpace(s);
    if t[0] != CLOSE_BRACE {
      var u := if acc == [] then t else t[1..];
      var name := ParseName(u, acc).value;
      StrictReads(name.rest, depth + 1, limit);
      var v := ReadValue(name.rest).value;
      StrictReadsMembers(v.rest, depth, limit, acc + [Entry(name.token, v.token)]);
    }
  }

  // ----- the faults of a document, whatever the order -----

  /** No object names a member twice. */
  predicate NoRepeats(v: Value) {
    match v
    case Arr(items) => forall i :: 0 <= i < |items| ==> NoRepeats(items[i])
    case Obj(members) => Distinct(Names(members)) && forall i :: 0 <= i < |members| ==> NoRepeats(members[i].value)
    case _ => true
  }

  /** Every number is an integer of magnitude below 2^53. */
  predicate Profiled(v: Value) {
    match v
    case Num(n) => CheckSafeInteger(n).SafeInteger?
    case Arr(items) => forall i :: 0 <= i < |items| ==> Profiled(items[i])
    case Obj(members) => forall i :: 0 <= i < |members| ==> Profiled(members[i].value)
    case _ => true
  }

  ghost predicate SomeFar(es: seq<Event>, limit: nat) {
    exists e :: e in es && TooFar(e, limit)
  }

  ghost predicate SomeOff(es: seq<Event>) {
    exists e :: e in es && OffProfile(e)
  }

  lemma InEither(a: seq<Event>, b: seq<Event>, limit: nat)
    ensures SomeFar(a + b, limit) <==> SomeFar(a, limit) || SomeFar(b, limit)
    ensures SomeOff(a + b) <==> SomeOff(a) || SomeOff(b)
    ensures Repeated in a + b <==> Repeated in a || Repeated in b
  {
    hide OffProfile;
    forall e | e in a ensures e in a + b {}
    forall e | e in b ensures e in a + b {}
  }

  lemma OffProfileIs(n: Number)
    ensures OffProfile(Token(n)) <==> !CheckSafeInteger(n).SafeInteger?
  {
    AcceptedExactly(n);
    if n': int :| Numbers.Value(n) == n' as real && Safe(n') {
      assert !OffProfile(Token(n));
    }
  }

  /** The walk meets a fault of each kind exactly when the document has one. */
  lemma {:induction false} EventsShow(v: Value, depth: nat, limit: nat)
    requires depth <= limit
    ensures Repeated in Events(v, depth) <==> !NoRepeats(v)
    ensures SomeFar(Events(v, depth), limit) <==> depth + Depth(v) > limit
    ensures SomeOff(Events(v, depth)) <==> !Profiled(v)
    decreases v, 0
  {
    hide OffProfile, CheckSafeInteger, SomeFar, SomeOff, ItemsEvents, MembersEvents, Distinct;
    NothingShown(limit);
    match v
    case Num(n) =>
      OneShown(Token(n), limit);
      OffProfileIs(n);
    case Arr(items) =>
      OneShown(Opened(depth), limit);
      InEither([Opened(depth)], ItemsEvents(items, depth + 1), limit);
      OnlyNumbersAreOff(Opened(depth));
      if depth < limit {
        ItemsShow(items, depth + 1, limit);
      } else {
        ItemsShow(items, depth + 1, depth + 1);
      }
    case Obj(members) =>
      OneShown(Opened(depth), limit);
      InEither([Opened(depth)], MembersEvents(members, 0, depth + 1), limit);
      OnlyNumbersAreOff(Opened(depth));
      assert members[0..] == members;
      MembersShow(members, 0, depth + 1, if depth < limit then limit else depth + 1);
      RepeatsFrom(members);
    case _ =>
  }

  lemma OnlyNumbersAreOff(e: Event)
    ensures OffProfile(e) ==> e.Token?
  {
  }

  lemma NothingShown(limit: nat)
    ensures !SomeFar([], limit) && !SomeOff([])
  {
  }

  lemma OneShown(e: Event, limit: nat)
    ensures SomeFar([e], limit) <==> TooFar(e, limit)
    ensures SomeOff([e]) <==> OffProfile(e)
  {
    hide OffProfile;
    assert e in [e];
  }

  lemma {:induction false} ItemsShow(items: seq<Value>, depth: nat, limit: nat)
    requires depth <= limit
    ensures Repeated in ItemsEvents(items, depth) <==> exists i :: 0 <= i < |items| && !NoRepeats(items[i])
    ensures SomeFar(ItemsEvents(items, depth), limit) <==> depth + ItemsDepth(items) > limit
    ensures SomeOff(ItemsEvents(items, depth)) <==> exists i :: 0 <= i < |items| && !Profiled(items[i])
    decreases items, |items|
  {
    hide SomeFar, SomeOff, Events, NoRepeats, Profiled, Depth;
    NothingShown(limit);
    if items != [] {
      var further := items[1..];
      EventsShow(items[0], depth, limit);
      ItemsShow(further, depth, limit);
      InEither(Events(items[0], depth), ItemsEvents(further, depth), limit);
      assert forall i :: 0 <= i < |further| ==> further[i] == items[i + 1];
      assert forall i :: 0 < i < |items| ==> items[i] == further[i - 1];
    }
  }

  predicate RepeatedAt(members: seq<Member>, k: int) {
    0 <= k < |members| && HasName(members[..k], members[k].name)
  }

  lemma RepeatsFrom(members: seq<Member>)
    ensures Distinct(Names(members)) <==> forall k :: 0 <= k < |members| ==> !RepeatedAt(members, k)
  {
    var names := Names(members);
    if k :| 0 <= k < |members| && RepeatedAt(members, k) {
      var j :| 0 <= j < k && members[..k][j].name == members[k].name;
      assert names[j] == names[k];
    }
    if !Distinct(names) {
      var i, j :| 0 <= i < j < |names| && names[i] == names[j];
      assert members[..j][i].name == members[j].name;
      assert RepeatedAt(members, j);
    }
  }

  lemma {:induction false} MembersShow(members: seq<Member>, k: nat, depth: nat, limit: nat)
    requires k <= |members| && depth <= limit
    ensures Repeated in MembersEvents(members, k, depth)
            <==> exists i :: k <= i < |members| && (RepeatedAt(members, i) || !NoRepeats(members[i].value))
    ensures SomeFar(MembersEvents(members, k, depth), limit) <==> depth + MembersDepth(members[k..]) > limit
    ensures SomeOff(MembersEvents(members, k, depth)) <==> exists i :: k <= i < |members| && !Profiled(members[i].value)
    decreases members, |members| - k
  {
    hide SomeFar, SomeOff, Events, NoRepeats, Profiled, Depth, HasName;
    NothingShown(limit);
    if k < |members| {
      var first, second := NameEvents(members, k), Events(members[k].value, depth);
      EventsShow(members[k].value, depth, limit);
      MembersShow(members, k + 1, depth, limit);
      InEither(first + second, MembersEvents(members, k + 1, depth), limit);
      InEither(first, second, limit);
      OneShown(Repeated, limit);
      assert !OffProfile(Repeated);
      assert members[k..][1..] == members[k + 1..];
      assert RepeatedAt(members, k) <==> Repeated in first;
    }
  }

  // ----- which fault comes first -----

  /** A number off the profile is read before the first repeated member and before the
      first container past the bound, or there is no such member or container. */
  ghost predicate NumberFirst(v: Value, limit: nat) {
    var es := Events(v, 0);
    exists i :: 0 <= i < |es| && OffProfile(es[i]) && forall j :: 0 <= j < i ==> !es[j].Repeated? && !TooFar(es[j], limit)
  }

  /** A number off the profile or a repeated member is read before the first container
      past the bound, or there is no such container. */
  ghost predicate Preempted(v: Value, limit: nat) {
    var es := Events(v, 0);
    exists i :: 0 <= i < |es| && (OffProfile(es[i]) || es[i].Repeated?) && forall j :: 0 <= j < i ==> !TooFar(es[j], limit)
  }

  lemma FaultKinds(e: Event, limit: nat)
    ensures FaultOf(e, limit) == Some(TooDeep) <==> TooFar(e, limit)
    ensures FaultOf(e, limit) == Some(DuplicateMember) <==> e == Repeated
    ensures FaultOf(e, limit) == Some(NonIntegerNumber) || FaultOf(e, limit) == Some(UnsafeNumber) <==> OffProfile(e)
    ensures FaultOf(e, limit).Some? <==> TooFar(e, limit) || e == Repeated || OffProfile(e)
  {
    hide CheckSafeInteger, OffProfile;
    match e
    case Token(n) => OffProfileIs(n);
    case _ => OnlyNumbersAreOff(e);
  }

  predicate StopsAtNumber(fault: Option<ParseError>) {
    fault == Some(NonIntegerNumber) || fault == Some(UnsafeNumber)
  }

  ghost predicate Faulty(e: Event, limit: nat) {
    TooFar(e, limit) || e == Repeated || OffProfile(e)
  }

  /** Where the walk ends, and that the error tells what it met there. */
  lemma WalkEnds(v: Value, limit: nat) returns (i: nat)
    ensures var es := Events(v, 0);
            && i <= |es| && (forall j :: 0 <= j < i ==> !Faulty(es[j], limit)) && (i < |es| ==> Faulty(es[i], limit))
    ensures var fault := FirstFault(Events(v, 0), limit);
            if i < |Events(v, 0)| then
              var e := Events(v, 0)[i];
              (StopsAtNumber(fault) <==> OffProfile(e)) && (fault == Some(TooDeep) <==> TooFar(e, limit))
              && (fault == Some(DuplicateMember) <==> e == Repeated) && fault.Some?
            else fault.None?
  {
    hide OffProfile, FaultOf, Events, FirstFault;
    var es := Events(v, 0);
    i := FirstFaultAt(es, limit);
    forall j | 0 <= j < |es| ensures FaultOf(es[j], limit).Some? <==> Faulty(es[j], limit) {
      FaultKinds(es[j], limit);
    }
    if i < |es| {
      FaultKinds(es[i], limit);
    }
  }

  /** Which error the walk ends with, by the order of the faults in the document. */
  lemma FirstFaultMeans(v: Value, limit: nat)
    ensures var fault := FirstFault(Events(v, 0), limit);
            && (StopsAtNumber(fault) <==> NumberFirst(v, limit))
            && (fault == Some(TooDeep) <==> Depth(v) > limit && !Preempted(v, limit))
            && (fault == Some(DuplicateMember) ==> !NoRepeats(v))
            && (fault.Some? ==> StopsAtNumber(fault) || fault == Some(TooDeep) || fault == Some(DuplicateMember))
  {
    hide OffProfile, Events, NoRepeats, Profiled, Depth, FirstFault, TooFar;
    var es := Events(v, 0);
    var i := WalkEnds(v, limit);
    EventsShow(v, 0, limit);
    forall j | 0 <= j < |es| ensures TooFar(es[j], limit) ==> !OffProfile(es[j]) && es[j] != Repeated {
      FarIsNothingElse(es[j], limit);
    }
    if i < |es| {
      assert es[i] in es;
      OnlyNumbersAreOff(es[i]);
    } else {
      forall e | e in es ensures !TooFar(e, limit) {
        var j :| 0 <= j < |es| && es[j] == e;
      }
    }
  }

  lemma FarIsNothingElse(e: Event, limit: nat)
    ensures TooFar(e, limit) ==> !OffProfile(e) && e != Repeated
  {
  }

  /** And when it meets none. */
  lemma NoFaultMeans(v: Value, limit: nat)
    ensures FirstFault(Events(v, 0), limit).None? <==> NoRepeats(v) && Depth(v) <= limit && Profiled(v)
  {
    hide OffProfile, Events, NoRepeats, Profiled, Depth, FirstFault, StopsAtNumber, TooFar;
    var es := Events(v, 0);
    var i := WalkEnds(v, limit);
    EventsShow(v, 0, limit);
    if i < |es| {
      assert es[i] in es;
    } else {
      forall e | e in es ensures !Faulty(e, limit) {
        var j :| 0 <= j < |es| && es[j] == e;
      }
    }
  }

  /** A document whose numbers are on the profile is not stopped at one. */
  lemma ProfiledNumbers(v: Value, limit: nat)
    requires Profiled(v)
    ensures !NumberFirst(v, limit)
  {
    hide OffProfile, NoRepeats, Profiled, Depth, Events;
    EventsShow(v, 0, limit);
    forall e | e in Events(v, 0) ensures !OffProfile(e) {}
  }

  /** Where repeats and nesting are in order, a number off the profile comes first. */
  lemma OnlyNumbers(v: Value, limit: nat)
    requires NoRepeats(v) && Depth(v) <= limit && !Profiled(v)
    ensures NumberFirst(v, limit)
  {
    hide OffProfile, NoRepeats, Profiled, Depth, Events;
    EventsShow(v, 0, limit);
    var es := Events(v, 0);
    var e :| e in es && OffProfile(e);
    var i :| 0 <= i < |es| && es[i] == e;
    forall j | 0 <= j < i ensures !es[j].Repeated? && !TooFar(es[j], limit) {
      assert es[j] in es;
    }
  }

  /** So does one that is the value of the first member. */
  lemma LeadingNumber(members: seq<Member>, limit: nat)
    requires members != [] && members[0].value.Num? && !Profiled(members[0].value) && limit > 0
    ensures NumberFirst(Obj(members), limit)
  {
    hide OffProfile, CheckSafeInteger;
    var n := members[0].value.n;
    var es := Events(Obj(members), 0);
    OffProfileIs(n);
    assert NameEvents(members, 0) == [];
    assert MembersEvents(members, 0, 1) == [] + [Token(n)] + MembersEvents(members, 1, 1);
    assert es[1] == Token(n);
  }

  // ----- texts -----

  /** A member at the front of a text, its value and what follows given. */
  function Field(name: string, value: bytes): bytes {
    JcsString(name) + ([COLON] + value)
  }

  lemma NumberRead(l: Number, rest: bytes)
    requires EndsNumber(rest)
    ensures ReadValue(LiteralText(l) + rest) == Some(Lexed(Num(l), rest))
  {
    hide LexNumber, LiteralText, FracText, ExpText;
    LexNumberText(l, rest);
    var t := LiteralText(l) + rest;
    NumberStart(l, rest);
    assert SkipSpace(t) == t;
  }

  lemma NumberStart(l: Number, rest: bytes)
    ensures var t := LiteralText(l) + rest; t != [] && (t[0] == MINUS || IsDigit(t[0]))
  {
    assert l.whole[0] in l.whole;
  }

  lemma ObjectRead(body: bytes)
    requires ReadMembers(body, []).Some?
    ensures ReadValue([OPEN_BRACE] + body)
            == Some(Lexed(Obj(ReadMembers(body, []).value.token), ReadMembers(body, []).value.rest))
  {
    hide ReadMembers;
    var t := [OPEN_BRACE] + body;
    assert SkipSpace(t) == t && t[1..] == body;
  }

  lemma CloseRead(rest: bytes, acc: seq<Member>)
    ensures ReadMembers([CLOSE_BRACE] + rest, acc) == Some(Lexed(acc, rest))
  {
    var t := [CLOSE_BRACE] + rest;
    assert SkipSpace(t) == t && t[1..] == rest;
  }

  lemma FieldRead(s: bytes, name: string, value: bytes, acc: seq<Member>, further: seq<Member>)
    requires s == (if acc == [] then [] else [COMMA]) + Field(name, value) && ReadValue(value).Some?
    requires further == acc + [Entry(name, ReadValue(value).value.token)]
    ensures ReadMembers(s, acc) == ReadMembers(ReadValue(value).value.rest, further)
  {
    hide ReadValue, JcsString;
    var t := Field(name, value);
    RoundTrip.StringReads(name, [COLON] + value);
    assert ([COLON] + value)[1..] == value;
    assert ReadName(t) == Some(Lexed(name, value));
    if acc == [] {
      assert s == t;
    } else {
      assert s[0] == COMMA && s[1..] == t;
    }
  }
}
