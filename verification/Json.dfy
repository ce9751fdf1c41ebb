/** JSON values, the strict parser of aee/jcs.go as functions over bytes, and the
    RFC 8785 writer. */
module Json {
  import opened Core
  import opened Order
  import opened Sorting
  import opened Numbers
  import opened Scan

  datatype Value =
    | Null
    | Bool(b: bool)
    | Num(n: Number)
    | Str(s: string)
    | Arr(items: seq<Value>)
    | Obj(members: seq<Entry<Value>>)

  type Member = Entry<Value>

  datatype ParseError =
    | SyntaxError
    | TooDeep
    | DuplicateMember
    | NonIntegerNumber
    | UnsafeNumber
    | TrailingContent
    | NotScalar

  datatype Result<+T> = Ok(value: T) | Err(error: ParseError)

  const OPEN_BRACE: byte := 0x7B
  const CLOSE_BRACE: byte := 0x7D
  const OPEN_BRACKET: byte := 0x5B
  const CLOSE_BRACKET: byte := 0x5D
  const COMMA: byte := 0x2C
  const COLON: byte := 0x3A
  const TRUE_TEXT: bytes := [0x74, 0x72, 0x75, 0x65]
  const FALSE_TEXT: bytes := [0x66, 0x61, 0x6C, 0x73, 0x65]
  const NULL_TEXT: bytes := [0x6E, 0x75, 0x6C, 0x6C]

  /** maxParseDepth. */
  const MAX_DEPTH: nat := 128

  // ----- parsing -----

  predicate IsSpace(b: byte) {
    b == 0x20 || b == 0x09 || b == 0x0A || b == 0x0D
  }

  function SkipSpace(s: bytes): (t: bytes)
    ensures |t| <= |s|
    ensures t != [] ==> !IsSpace(t[0])
    ensures s != [] && !IsSpace(s[0]) ==> t == s
  {
    if s != [] && IsSpace(s[0]) then SkipSpace(s[1..]) else s
  }

  function ParseString(t: bytes): (r: Result<Lexed<string>>)
    ensures r.Ok? ==> |r.value.rest| < |t|
  {
    if t == [] || t[0] != QUOTE then Err(SyntaxError)
    else
      var n := LexBody(t[1..]);
      if n.None? then Err(SyntaxError) else Ok(Lexed(Unquote(t[1..n.value]), t[1 + n.value..]))
  }

  /** A number token and checkSafeNumber. */
  function ParseNumber(t: bytes): (r: Result<Lexed<Value>>)
    ensures r.Ok? ==> |r.value.rest| < |t|
  {
    var lexed := LexNumber(t);
    if lexed.None? then Err(SyntaxError)
    else
      match CheckSafeInteger(lexed.value.token)
      case NonInteger => Err(NonIntegerNumber)
      case UnsafeInteger => Err(UnsafeNumber)
      case SafeInteger(_) => Ok(Lexed(Num(lexed.value.token), lexed.value.rest))
  }

  function ParseWord(t: bytes, word: bytes, v: Value): (r: Result<Lexed<Value>>)
    requires word != []
    ensures r.Ok? ==> |r.value.rest| < |t|
  {
    if word <= t then Ok(Lexed(v, t[|word|..])) else Err(SyntaxError)
  }

  /** Strings, numbers and the three words. */
  function ParseScalar(t: bytes): (r: Result<Lexed<Value>>)
    requires t != []
    ensures r.Ok? ==> |r.value.rest| < |t|
  {
    if t[0] == QUOTE then
      var s := ParseString(t);
      if s.Err? then Err(s.error) else Ok(Lexed(Str(s.value.token), s.value.rest))
    else if t[0] == MINUS || IsDigit(t[0]) then ParseNumber(t)
    else if t[0] == 0x74 then ParseWord(t, TRUE_TEXT, Bool(true))
    else if t[0] == 0x66 then ParseWord(t, FALSE_TEXT, Bool(false))
    else ParseWord(t, NULL_TEXT, Null)
  }

  /** decodeValue at `depth` enclosing containers, with nesting bound `limit`. */
  function ParseValue(s: bytes, depth: nat, limit: nat): (r: Result<Lexed<Value>>)
    ensures r.Ok? ==> |r.value.rest| < |s|
    decreases |s|, 0
  {
    var t := SkipSpace(s);
    if t == [] then Err(SyntaxError)
    else if t[0] == OPEN_BRACE then
      if depth >= limit then Err(TooDeep) else ParseMembers(t[1..], depth, limit, [])
    else if t[0] == OPEN_BRACKET then
      if depth >= limit then Err(TooDeep) else ParseItems(t[1..], depth, limit, [])
    else ParseScalar(t)
  }

  /** The rest of an array after the elements `acc`. */
  function ParseItems(s: bytes, depth: nat, limit: nat, acc: seq<Value>): (r: Result<Lexed<Value>>)
    ensures r.Ok? ==> |r.value.rest| < |s|
    decreases |s|, 1
  {
    var t := SkipSpace(s);
    if t == [] then Err(SyntaxError)
    else if t[0] == CLOSE_BRACKET then Ok(Lexed(Arr(acc), t[1..]))
    else if t[0] == CLOSE_BRACE || (acc != [] && t[0] != COMMA) then Err(SyntaxError)
    else
      var v := ParseValue(if acc == [] then t else t[1..], depth + 1, limit);
      if v.Err? then Err(v.error) else ParseItems(v.value.rest, depth, limit, acc + [v.value.token])
  }

  /** The rest of an object after the members `acc`. */
  function ParseMembers(s: bytes, depth: nat, limit: nat, acc: seq<Member>): (r: Result<Lexed<Value>>)
    ensures r.Ok? ==> |r.value.rest| < |s|
    decreases |s|, 1
  {
    var t := SkipSpace(s);
    if t == [] then Err(SyntaxError)
    else if t[0] == CLOSE_BRACE then Ok(Lexed(Obj(acc), t[1..]))
    else if t[0] == CLOSE_BRACKET || (acc != [] && t[0] != COMMA) then Err(SyntaxError)
    else
      var name := ParseName(if acc == [] then t else t[1..], acc);
      if name.Err? then Err(name.error)
      else
        var v := ParseValue(name.value.rest, depth + 1, limit);
        if v.Err? then Err(v.error)
        else ParseMembers(v.value.rest, depth, limit, acc + [Entry(name.value.token, v.value.token)])
  }

  predicate HasName(ms: seq<Member>, name: string) {
    exists i :: 0 <= i < |ms| && ms[i].name == name
  }

  /** A member name that is not in `acc`, and its colon. */
  function ParseName(s: bytes, acc: seq<Member>): (r: Result<Lexed<string>>)
    ensures r.Ok? ==> |r.value.rest| < |s|
  {
    var name := ParseString(SkipSpace(s));
    if name.Err? then Err(name.error)
    else if HasName(acc, name.value.token) then Err(DuplicateMember)
    else
      var t := SkipSpace(name.value.rest);
      if t == [] || t[0] != COLON then Err(SyntaxError) else Ok(Lexed(name.value.token, t[1..]))
  }

  /** parseJSONValue under a nesting bound: one value, nothing after it, and every
      string literal of the document made of scalar values. */
  function ParseWithin(raw: bytes, limit: nat): Result<Value> {
    var v := ParseValue(raw, 0, limit);
    if v.Err? then Err(v.error)
    else if SkipSpace(v.value.rest) != [] then Err(TrailingContent)
    else if !ScanDocument(raw) then Err(NotScalar)
    else Ok(v.value.token)
  }

  function ParseJson(raw: bytes): Result<Value> {
    ParseWithin(raw, MAX_DEPTH)
  }

  // ----- writing -----

  /** The text of an accepted number. */
  function NumberText(n: Number): bytes {
    match Es6Number(n)
    case Some(Decimal(text)) => text
    case _ => []
  }

  function ItemsText(ts: seq<bytes>, first: bool): bytes {
    if ts == [] then [] else (if first then [] else [COMMA]) + ts[0] + ItemsText(ts[1..], false)
  }

  function MembersText(ts: seq<Entry<bytes>>, first: bool): bytes {
    if ts == [] then []
    else (if first then [] else [COMMA]) + JcsString(ts[0].name) + [COLON] + ts[0].value + MembersText(ts[1..], false)
  }

  /** The canonical text of a value. */
  function Canon(v: Value): bytes
    decreases v, 1
  {
    match v
    case Null => NULL_TEXT
    case Bool(b) => if b then TRUE_TEXT else FALSE_TEXT
    case Num(n) => NumberText(n)
    case Str(s) => JcsString(s)
    case Arr(items) => [OPEN_BRACKET] + ItemsText(CanonItems(items), true) + [CLOSE_BRACKET]
    case Obj(members) => [OPEN_BRACE] + MembersText(Sort(CanonMembers(members), NameOf), true) + [CLOSE_BRACE]
  }

  function CanonItems(items: seq<Value>): seq<bytes>
    decreases items, 0
  {
    if items == [] then [] else [Canon(items[0])] + CanonItems(items[1..])
  }

  function CanonMembers(members: seq<Member>): seq<Entry<bytes>>
    decreases members, 0
  {
    if members == [] then []
    else [Entry(members[0].name, Canon(members[0].value))] + CanonMembers(members[1..])
  }

  /** appendCanonical meets no error: the nesting stays within the bound and every
      number is a safe integer. */
  predicate Writable(v: Value, depth: nat)
  {
    depth <= MAX_DEPTH &&
    match v
    case Num(n) => CheckSafeInteger(n).SafeInteger?
    case Arr(items) => forall i :: 0 <= i < |items| ==> Writable(items[i], depth + 1)
    case Obj(members) => forall i :: 0 <= i < |members| ==> Writable(members[i].value, depth + 1)
    case _ => true
  }

  /** Canonicalize. */
  function Canonicalize(raw: bytes): Result<bytes> {
    var v := ParseJson(raw);
    if v.Err? then Err(v.error)
    else if !Writable(v.value, 0) then Err(TooDeep)
    else Ok(Canon(v.value))
  }

  // ----- what the parser guarantees -----

  function Names(ms: seq<Member>): seq<string> {
    Keys(ms, NameOf)
  }

  /** Member names are distinct, strings hold no noncharacter, numbers are safe. */
  predicate WellFormed(v: Value) {
    match v
    case Num(n) => CheckSafeInteger(n).SafeInteger?
    case Str(s) => Clean(s)
    case Arr(items) => forall i :: 0 <= i < |items| ==> WellFormed(items[i])
    case Obj(members) =>
      && Distinct(Names(members))
      && forall i :: 0 <= i < |members| ==> Clean(members[i].name) && WellFormed(members[i].value)
    case _ => true
  }

  /** Every member name at every depth is BMP-only (hasSupplementaryMemberName is
      false). */
  predicate BmpNames(v: Value) {
    match v
    case Arr(items) => forall i :: 0 <= i < |items| ==> BmpNames(items[i])
    case Obj(members) => forall i :: 0 <= i < |members| ==> BmpOnly(members[i].name) && BmpNames(members[i].value)
    case _ => true
  }

  /** Containers on the deepest path. */
  function Depth(v: Value): nat
    decreases v, 1
  {
    match v
    case Arr(items) => 1 + ItemsDepth(items)
    case Obj(members) => 1 + MembersDepth(members)
    case _ => 0
  }

  function ItemsDepth(items: seq<Value>): (d: nat)
    ensures forall i :: 0 <= i < |items| ==> Depth(items[i]) <= d
    decreases items, 0
  {
    if items == [] then 0 else Max(Depth(items[0]), ItemsDepth(items[1..]))
  }

  function MembersDepth(members: seq<Member>): (d: nat)
    ensures forall i :: 0 <= i < |members| ==> Depth(members[i].value) <= d
    decreases members, 0
  {
    if members == [] then 0 else Max(Depth(members[0].value), MembersDepth(members[1..]))
  }
}
