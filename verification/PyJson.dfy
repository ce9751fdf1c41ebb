/** The CPython-compatible encoder (corpora/pyjson.go): which bytes it writes under its
    two options, when the two member orders write the same bytes, and how they relate to
    RFC 8785. */
module PyJson {
  import opened Core
  import opened Utf8
  import opened Order
  import opened Sorting
  import opened Numbers
  import opened Scan
  import opened Json
  import opened Codec

  /** pyEncodeOpts. */
  datatype Options = Options(ensureAscii: bool, utf16Order: bool)

  // ----- strings -----

  /** The \u escape of one 16-bit unit. */
  function HexFour(n: int): (h: bytes)
    requires 0 <= n < 0x10000
    ensures |h| == 4 && Hex4(h) == Some(n)
  {
    HexFourValue(n);
    [HexByte(n / 4096), HexByte(n / 256 % 16), HexByte(n / 16 % 16), HexByte(n % 16)]
  }

  lemma HexFourValue(n: int)
    requires 0 <= n < 0x10000
    ensures Hex4([HexByte(n / 4096), HexByte(n / 256 % 16), HexByte(n / 16 % 16), HexByte(n % 16)]) == Some(n)
  {
    HexByteValue(n / 4096);
    HexByteValue(n / 256 % 16);
    HexByteValue(n / 16 % 16);
    HexByteValue(n % 16);
    assert n / 16 / 16 == n / 256 && n / 256 / 16 == n / 4096;
  }

  lemma HexByteValue(d: int)
    requires 0 <= d < 16
    ensures HexValue(HexByte(d)) == Some(d)
  {
  }

  /** The unit writePythonString writes for a character. */
  function PyUnit(c: char, ascii: bool): (u: Unit)
    ensures UnitOk(u) && UnitChar(u) == c
  {
    var n := c as int;
    if c == '\"' then Short(0x22)
    else if c == '\\' then Short(0x5C)
    else if n == 10 then Short(0x6E)
    else if n == 13 then Short(0x72)
    else if n == 9 then Short(0x74)
    else if n == 8 then Short(0x62)
    else if n == 12 then Short(0x66)
    else if n < 0x20 then Unit.Hex(HexFour(n))
    else if n < 0x7F then Plain(c)
    else if !ascii then Plain(c)
    else if n <= 0xFFFF then Unit.Hex(HexFour(n))
    else
      var hi, lo := 0xD800 + (n - 0x10000) / 1024, 0xDC00 + (n - 0x10000) % 1024;
      assert Combine(hi, lo) == n;
      Pair(HexFour(hi), HexFour(lo))
  }

  function PyChar(c: char, ascii: bool): bytes {
    UnitText(PyUnit(c, ascii))
  }

  function PyChars(s: string, ascii: bool): bytes {
    if s == [] then [] else PyChar(s[0], ascii) + PyChars(s[1..], ascii)
  }

  function PyString(s: string, ascii: bool): bytes {
    [QUOTE] + PyChars(s, ascii) + [QUOTE]
  }

  lemma {:induction false} PyUnits(s: string, ascii: bool) returns (us: seq<Unit>)
    ensures UnitsOk(us) && Text(us) == PyChars(s, ascii) && Chars(us) == s
  {
    if s == [] {
      us := [];
    } else {
      var tail := PyUnits(s[1..], ascii);
      us := [PyUnit(s[0], ascii)] + tail;
      assert us[1..] == tail;
    }
  }

  /** Either spelling delimits itself and reads back as the string it was written
      for. */
  lemma PyReadsBack(s: string, ascii: bool, rest: bytes)
    ensures LexBody(PyChars(s, ascii) + [QUOTE] + rest) == Some(|PyChars(s, ascii)| + 1)
    ensures Unquote(PyChars(s, ascii)) == s
    ensures Clean(s) ==> ScanBody(PyChars(s, ascii) + [QUOTE] + rest) == Some(|PyChars(s, ascii)| + 1)
  {
    var us := PyUnits(s, ascii);
    ScanUnits(us, rest);
    UnquoteUnits(us);
  }

  /** ensure_ascii leaves no byte from 0x80 up. */
  lemma {:induction false} AsciiOnly(s: string)
    ensures forall i :: 0 <= i < |PyString(s, true)| ==> PyString(s, true)[i] < 0x80
  {
    AsciiChars(s);
  }

  lemma {:induction false} AsciiChars(s: string)
    ensures forall i :: 0 <= i < |PyChars(s, true)| ==> PyChars(s, true)[i] < 0x80
  {
    if s != [] {
      AsciiChar(s[0]);
      AsciiChars(s[1..]);
    }
  }

  lemma AsciiChar(c: char)
    ensures forall i :: 0 <= i < |PyChar(c, true)| ==> PyChar(c, true)[i] < 0x80
  {
    hide Hex4;
    forall n | 0 <= n < 0x10000 ensures forall i :: 0 <= i < 4 ==> HexFour(n)[i] < 0x80 {
      HexFourAscii(n);
    }
  }

  lemma HexFourAscii(n: int)
    requires 0 <= n < 0x10000
    ensures forall i :: 0 <= i < 4 ==> HexFour(n)[i] < 0x80
  {
    hide Hex4;
  }

  /** Without ensure_ascii a string is written as RFC 8785 writes it. */
  lemma {:induction false} PyIsJcs(s: string)
    ensures PyChars(s, false) == JcsChars(s)
  {
    if s != [] {
      PyCharIsJcs(s[0]);
      PyIsJcs(s[1..]);
    }
  }

  lemma PyCharIsJcs(c: char)
    ensures PyChar(c, false) == JcsChar(c)
  {
    hide Encode, HexFour, Hex4;
    if c as int < 0x20 {
      ControlText(c as int);
    }
  }

  lemma ControlText(n: int)
    requires 0 <= n < 0x20
    ensures HexFour(n) == [0x30, 0x30, HexByte(n / 16), HexByte(n % 16)]
  {
    assert n / 4096 == 0 && n / 256 % 16 == 0 && n / 16 % 16 == n / 16;
    assert HexByte(0) == 0x30;
  }

  /** writePythonString. */
  method WritePythonString(buf: Buffer, s: string, ascii: bool)
    modifies buf
    ensures buf.data == old(buf.data) + PyString(s, ascii)
  {
    hide PyChar;
    buf.Write([QUOTE]);
    assert s[0..] == s;
    for i := 0 to |s|
      invariant buf.data + PyChars(s[i..], ascii) == old(buf.data) + ([QUOTE] + PyChars(s, ascii))
    {
      assert PyChars(s[i..], ascii) == PyChar(s[i], ascii) + PyChars(s[i + 1..], ascii) by {
        assert s[i..][0] == s[i] && s[i..][1..] == s[i + 1..];
      }
      buf.Write(PyChar(s[i], ascii));
    }
    assert PyChars(s[|s|..], ascii) == [];
    assert buf.data == old(buf.data) + ([QUOTE] + PyChars(s, ascii));
    buf.Write([QUOTE]);
  }

  // ----- values -----

  /** The comparison the options select. */
  function LessOf(utf16: bool): (string, string) -> bool {
    if utf16 then Utf16Less else ByteLess
  }

  function PyMembersText(ts: seq<Entry<bytes>>, ascii: bool, first: bool): bytes {
    if ts == [] then []
    else (if first then [] else [COMMA]) + PyString(ts[0].name, ascii) + [COLON] + ts[0].value
         + PyMembersText(ts[1..], ascii, false)
  }

  /** The text of a value whose numbers are all in plain notation. */
  function PyText(v: Value, o: Options): bytes
    decreases v, 1
  {
    match v
    case Null => NULL_TEXT
    case Bool(b) => if b then TRUE_TEXT else FALSE_TEXT
    case Num(n) => LiteralText(n)
    case Str(s) => PyString(s, o.ensureAscii)
    case Arr(items) => [OPEN_BRACKET] + ItemsText(PyItems(items, o), true) + [CLOSE_BRACKET]
    case Obj(members) =>
      [OPEN_BRACE] + PyMembersText(SortBy(PyMembers(members, o), NameOf, LessOf(o.utf16Order)), o.ensureAscii, true) + [CLOSE_BRACE]
  }

  function PyItems(items: seq<Value>, o: Options): (ts: seq<bytes>)
    ensures |ts| == |items|
    decreases items, 0
  {
    if items == [] then [] else [PyText(items[0], o)] + PyItems(items[1..], o)
  }

  function PyMembers(members: seq<Member>, o: Options): (ts: seq<Entry<bytes>>)
    ensures |ts| == |members| && forall i :: 0 <= i < |members| ==> ts[i].name == members[i].name
    decreases members, 0
  {
    if members == [] then []
    else [Entry(members[0].name, PyText(members[0].value, o))] + PyMembers(members[1..], o)
  }

  /** The encoder does not refuse the value: no number has a fraction or an exponent. */
  predicate Floatless(v: Value) {
    match v
    case Num(n) => PlainNotation(n)
    case Arr(items) => forall i :: 0 <= i < |items| ==> Floatless(items[i])
    case Obj(members) => forall i :: 0 <= i < |members| ==> Floatless(members[i].value)
    case _ => true
  }

  /** On BMP-only member names the two orders write the same bytes, at every depth. */
  lemma {:induction false} OrdersWriteAlike(v: Value, ascii: bool)
    requires BmpNames(v)
    ensures PyText(v, Options(ascii, true)) == PyText(v, Options(ascii, false))
    decreases v, 1
  {
    hide PyString, ItemsText, PyMembersText, SortBy, BmpOnly, LessOf;
    match v
    case Arr(items) =>
      ItemsAlike(items, ascii);
    case Obj(members) =>
      MembersAlike(members, ascii);
      SortsAlike(PyMembers(members, Options(ascii, true)), members);
    case _ =>
  }

  lemma {:induction false} ItemsAlike(items: seq<Value>, ascii: bool)
    requires forall i :: 0 <= i < |items| ==> BmpNames(items[i])
    ensures PyItems(items, Options(ascii, true)) == PyItems(items, Options(ascii, false))
    decreases items, 0
  {
    hide PyText;
    if items != [] {
      OrdersWriteAlike(items[0], ascii);
      ItemsAlike(items[1..], ascii);
    }
  }

  lemma {:induction false} MembersAlike(members: seq<Member>, ascii: bool)
    requires forall i :: 0 <= i < |members| ==> BmpNames(members[i].value)
    ensures PyMembers(members, Options(ascii, true)) == PyMembers(members, Options(ascii, false))
    decreases members, 0
  {
    hide PyText;
    if members != [] {
      OrdersWriteAlike(members[0].value, ascii);
      MembersAlike(members[1..], ascii);
    }
  }

  lemma SortsAlike(ts: seq<Entry<bytes>>, members: seq<Member>)
    requires |ts| == |members| && forall i :: 0 <= i < |ts| ==> ts[i].name == members[i].name && BmpOnly(members[i].name)
    ensures SortBy(ts, NameOf, LessOf(true)) == SortBy(ts, NameOf, LessOf(false))
  {
    hide BmpOnly, Utf16Less, ByteLess, PointLess;
    forall i | 0 <= i < |ts| ensures Agree(ts[i], ts, NameOf, Utf16Less, ByteLess) {
      forall j | 0 <= j < |ts| ensures Utf16Less(NameOf(ts[i]), NameOf(ts[j])) == ByteLess(NameOf(ts[i]), NameOf(ts[j])) {
        BmpOrdersCoincide(ts[i].name, ts[j].name);
        ByteOrderIsPointOrder(ts[i].name, ts[j].name);
      }
    }
    OrdersSortAlike(ts, NameOf, Utf16Less, ByteLess);
  }

  const SUPPLEMENTARY: Member := Entry("\U{1F600}", Null)
  const HIGH_BMP: Member := Entry("\U{FB33}", Null)

  /** A supplementary-plane name beside one from U+E000..U+FFFF: the orders write
      different bytes. */
  lemma OrdersWriteApart()
    ensures PyText(Obj([SUPPLEMENTARY, HIGH_BMP]), Options(false, true)) != PyText(Obj([SUPPLEMENTARY, HIGH_BMP]), Options(false, false))
  {
    hide Utf16Less, ByteLess, Encode, SortBy;
    var ms := [SUPPLEMENTARY, HIGH_BMP];
    var x, y := Entry(SUPPLEMENTARY.name, NULL_TEXT), Entry(HIGH_BMP.name, NULL_TEXT);
    forall utf16: bool ensures PyMembers(ms, Options(false, utf16)) == [x, y] {
      TwoTexts(Options(false, utf16));
    }
    OrdersDiffer();
    ByteOrderIsPointOrder(SUPPLEMENTARY.name, HIGH_BMP.name);
    ByteOrderIsPointOrder(HIGH_BMP.name, SUPPLEMENTARY.name);
    HighBelow();
    Utf16LessTotal(SUPPLEMENTARY.name, HIGH_BMP.name);
    TwoSorted(x, y, Utf16Less);
    TwoSorted(x, y, ByteLess);
    Opening(x, [y]);
    Opening(y, [x]);
    FirstBytes();
  }

  lemma TwoTexts(o: Options)
    ensures PyMembers([SUPPLEMENTARY, HIGH_BMP], o) == [Entry(SUPPLEMENTARY.name, NULL_TEXT), Entry(HIGH_BMP.name, NULL_TEXT)]
  {
    var ms := [SUPPLEMENTARY, HIGH_BMP];
    assert ms[1..] == [HIGH_BMP] && ms[1..][1..] == [];
    assert PyMembers(ms[1..], o) == [Entry(HIGH_BMP.name, NULL_TEXT)];
  }

  lemma TwoSorted(x: Entry<bytes>, y: Entry<bytes>, less: (string, string) -> bool)
    ensures SortBy([x, y], NameOf, less) == if less(y.name, x.name) then [y, x] else [x, y]
  {
    assert [x, y][..1] == [x] && [x][..0] == [];
    assert SortBy([x], NameOf, less) == [x];
    assert Insert([], y, NameOf, less) == [y];
  }

  lemma HighBelow()
    ensures PointLess(HIGH_BMP.name, SUPPLEMENTARY.name)
  {
    assert Points(HIGH_BMP.name)[0] == 0xFB33 && Points(SUPPLEMENTARY.name)[0] == 0x1F600;
  }

  /** The third byte of an object's text starts its first name. */
  lemma Opening(x: Entry<bytes>, rest: seq<Entry<bytes>>)
    requires |x.name| == 1 && x.name[0] as int >= 0x80
    ensures ([OPEN_BRACE] + PyMembersText([x] + rest, false, true) + [CLOSE_BRACE])[2] == Encode(x.name[0])[0]
  {
    hide Encode;
    var c := x.name[0];
    assert PyChar(c, false) == Encode(c);
    assert PyString(x.name, false)[1] == Encode(c)[0];
    assert ([x] + rest)[0] == x;
  }

  lemma FirstBytes()
    ensures Encode(SUPPLEMENTARY.name[0])[0] != Encode(HIGH_BMP.name[0])[0]
  {
  }

  // ----- against RFC 8785 -----

  /** Every number is spelled as the canonical writer would spell it. */
  predicate PlainNumbers(v: Value) {
    match v
    case Num(n) => LiteralText(n) == NumberText(n)
    case Arr(items) => forall i :: 0 <= i < |items| ==> PlainNumbers(items[i])
    case Obj(members) => forall i :: 0 <= i < |members| ==> PlainNumbers(members[i].value)
    case _ => true
  }

  const JCS: Options := Options(false, true)

  /** Raw strings in UTF-16 order are RFC 8785 text. */
  lemma {:induction false} PyIsCanonical(v: Value)
    requires PlainNumbers(v)
    ensures PyText(v, JCS) == Canon(v)
    decreases v, 1
  {
    hide PyChars, JcsChars, ItemsText, PyMembersText, MembersText, Sort, SortBy, NumberText;
    match v
    case Str(s) =>
      PyIsJcs(s);
    case Arr(items) =>
      ItemsCanonical(items);
    case Obj(members) =>
      MembersCanonical(members);
      TextsAlike(SortBy(PyMembers(members, JCS), NameOf, Utf16Less), true);
      assert Sort(CanonMembers(members), NameOf) == SortBy(CanonMembers(members), NameOf, Utf16Less) by { SortIs(members); }
    case _ =>
  }

  lemma SortIs(members: seq<Member>)
    ensures Sort(CanonMembers(members), NameOf) == SortBy(CanonMembers(members), NameOf, Utf16Less)
  {
  }

  lemma {:induction false} ItemsCanonical(items: seq<Value>)
    requires forall i :: 0 <= i < |items| ==> PlainNumbers(items[i])
    ensures PyItems(items, JCS) == CanonItems(items)
    decreases items, 0
  {
    hide PyText, Canon;
    if items != [] {
      PyIsCanonical(items[0]);
      ItemsCanonical(items[1..]);
    }
  }

  lemma {:induction false} MembersCanonical(members: seq<Member>)
    requires forall i :: 0 <= i < |members| ==> PlainNumbers(members[i].value)
    ensures PyMembers(members, JCS) == CanonMembers(members)
    decreases members, 0
  {
    hide PyText, Canon;
    if members != [] {
      PyIsCanonical(members[0].value);
      MembersCanonical(members[1..]);
    }
  }

  lemma {:induction false} TextsAlike(ts: seq<Entry<bytes>>, first: bool)
    ensures PyMembersText(ts, false, first) == MembersText(ts, first)
  {
    hide PyChars, JcsChars;
    if ts != [] {
      PyIsJcs(ts[0].name);
      TextsAlike(ts[1..], false);
    }
  }

  // ----- the encoder as it runs -----

  lemma {:induction false} PyMembersTextAppend(ts: seq<Entry<bytes>>, t: Entry<bytes>, ascii: bool, first: bool)
    ensures PyMembersText(ts + [t], ascii, first)
            == PyMembersText(ts, ascii, first)
               + ((if first && ts == [] then [] else [COMMA]) + PyString(t.name, ascii) + [COLON] + t.value)
  {
    hide PyString;
    if ts == [] {
      assert ts + [t] == [t];
      assert PyMembersText([t][1..], ascii, false) == [];
    } else {
      assert (ts + [t])[1..] == ts[1..] + [t];
      PyMembersTextAppend(ts[1..], t, ascii, false);
      var head := (if first then [] else [COMMA]) + PyString(ts[0].name, ascii) + [COLON] + ts[0].value;
      assert PyMembersText(ts, ascii, first) == head + PyMembersText(ts[1..], ascii, false);
      assert PyMembersText(ts + [t], ascii, first) == head + PyMembersText(ts[1..] + [t], ascii, false);
    }
  }

  function Written(o: Options): Member -> Entry<bytes> {
    (m: Member) => Entry(m.name, PyText(m.value, o))
  }

  /** Sorting the texts is writing the sorted members. */
  lemma PySorted(members: seq<Member>, o: Options)
    ensures SortBy(PyMembers(members, o), NameOf, LessOf(o.utf16Order)) == Map(SortBy(members, NameOf, LessOf(o.utf16Order)), Written(o))
  {
    hide PyText, SortBy, LessOf;
    PyMembersMap(members, o);
    SortByMap(members, Written(o), NameOf, NameOf, LessOf(o.utf16Order));
  }

  lemma {:induction false} PyMembersMap(members: seq<Member>, o: Options)
    ensures PyMembers(members, o) == Map(members, Written(o))
  {
    hide PyText;
    if members != [] {
      PyMembersMap(members[1..], o);
      assert Map(members, Written(o)) == [Written(o)(members[0])] + Map(members[1..], Written(o));
    }
  }

  /** The sorted names, each looked up, are the sorted members. */
  lemma SortedKeys(members: seq<Member>, utf16: bool)
    ensures SortBy(Names(members), Self, LessOf(utf16)) == Names(SortBy(members, NameOf, LessOf(utf16)))
  {
    hide SortBy, LessOf;
    var sorted := SortBy(members, NameOf, LessOf(utf16));
    assert Names(members) == Map(members, NameOf);
    SortByMap(members, NameOf, NameOf, Self, LessOf(utf16));
    assert Names(sorted) == Map(sorted, NameOf);
  }

  lemma KeyLookUp(members: seq<Member>, utf16: bool, i: nat) returns (j: nat)
    requires Distinct(Names(members)) && i < |SortBy(members, NameOf, LessOf(utf16))|
    ensures j < |members| && members[j] == SortBy(members, NameOf, LessOf(utf16))[i]
    ensures HasName(members, members[j].name) && Lookup(members, members[j].name) == members[j].value
  {
    hide SortBy, LessOf, Lookup, HasName;
    var m := SortBy(members, NameOf, LessOf(utf16))[i];
    SortedFrom(members, NameOf, LessOf(utf16), m);
    UniqueLookup(members, m);
    j :| 0 <= j < |members| && members[j] == m;
  }

  /** encodePythonOpts: false is its error, after which the buffer is of no use. */
  method EncodePython(buf: Buffer, v: Value, o: Options) returns (ok: bool)
    requires NamesDistinct(v)
    modifies buf
    ensures ok == Floatless(v)
    ensures ok ==> buf.data == old(buf.data) + PyText(v, o)
    decreases v, 2
  {
    hide PyString, ItemsText, PyItems, PyMembersText, PyMembers, SortBy, Distinct, LiteralText, LessOf;
    match v
    case Null =>
      buf.Write(NULL_TEXT);
      return true;
    case Bool(b) =>
      buf.Write(if b then TRUE_TEXT else FALSE_TEXT);
      return true;
    case Num(n) =>
      if !PlainNotation(n) {
        return false;
      }
      buf.Write(LiteralText(n));
      return true;
    case Str(s) =>
      WritePythonString(buf, s, o.ensureAscii);
      return true;
    case Arr(items) =>
      buf.Write([OPEN_BRACKET]);
      ok := EncodeItems(buf, items, o);
      if ok {
        buf.Write([CLOSE_BRACKET]);
        assert buf.data == old(buf.data) + ([OPEN_BRACKET] + ItemsText(PyItems(items, o), true) + [CLOSE_BRACKET]);
      }
    case Obj(members) =>
      buf.Write([OPEN_BRACE]);
      ok := EncodeMembers(buf, v, o);
      if ok {
        buf.Write([CLOSE_BRACE]);
        assert buf.data == old(buf.data)
               + ([OPEN_BRACE] + PyMembersText(SortBy(PyMembers(members, o), NameOf, LessOf(o.utf16Order)), o.ensureAscii, true)
                  + [CLOSE_BRACE]);
      }
  }

  lemma {:induction false} PyItemsAppend(items: seq<Value>, v: Value, o: Options)
    ensures PyItems(items + [v], o) == PyItems(items, o) + [PyText(v, o)]
  {
    hide PyText;
    if items == [] {
      assert items + [v] == [v];
    } else {
      assert (items + [v])[1..] == items[1..] + [v];
      PyItemsAppend(items[1..], v, o);
    }
  }

  lemma NoText(o: Options)
    ensures ItemsText(PyItems([], o), true) == [] && forall ascii :: PyMembersText([], ascii, true) == []
  {
  }

  method EncodeItems(buf: Buffer, items: seq<Value>, o: Options) returns (ok: bool)
    requires forall i :: 0 <= i < |items| ==> NamesDistinct(items[i])
    modifies buf
    ensures ok == forall i :: 0 <= i < |items| ==> Floatless(items[i])
    ensures ok ==> buf.data == old(buf.data) + ItemsText(PyItems(items, o), true)
    decreases items, 1
  {
    hide ItemsText, PyItems, PyText, Floatless, NamesDistinct;
    NoText(o);
    for i := 0 to |items|
      invariant forall k :: 0 <= k < i ==> Floatless(items[k])
      invariant buf.data == old(buf.data) + ItemsText(PyItems(items[..i], o), true)
    {
      if i > 0 {
        buf.Write([COMMA]);
      }
      var written := EncodePython(buf, items[i], o);
      if !written {
        return false;
      }
      PyItemsAppend(items[..i], items[i], o);
      ItemsTextAppend(PyItems(items[..i], o), PyText(items[i], o), true);
      assert items[..i + 1] == items[..i] + [items[i]];
    }
    assert items[..|items|] == items;
    return true;
  }

  /** The sorted texts up to the i-th. */
  ghost function SoFar(members: seq<Member>, o: Options, i: nat): bytes
    requires i <= |SortBy(members, NameOf, LessOf(o.utf16Order))|
  {
    PyMembersText(Map(SortBy(members, NameOf, LessOf(o.utf16Order))[..i], Written(o)), o.ensureAscii, true)
  }

  lemma NextMember(base: bytes, members: seq<Member>, o: Options, i: nat)
    requires i < |SortBy(members, NameOf, LessOf(o.utf16Order))|
    ensures var m := SortBy(members, NameOf, LessOf(o.utf16Order))[i];
            base + SoFar(members, o, i) + (if i > 0 then [COMMA] else []) + PyString(m.name, o.ensureAscii) + [COLON] + PyText(m.value, o)
            == base + SoFar(members, o, i + 1)
  {
    hide PyMembersText, PyText, PyString, SortBy, LessOf;
    var sorted := SortBy(members, NameOf, LessOf(o.utf16Order));
    var m := sorted[i];
    var before := Map(sorted[..i], Written(o));
    assert sorted[..i + 1] == sorted[..i] + [m];
    MapAppend(sorted[..i], [m], Written(o));
    PyMembersTextAppend(before, Entry(m.name, PyText(m.value, o)), o.ensureAscii, true);
    var t, comma := PyMembersText(before, o.ensureAscii, true), if i > 0 then [COMMA] else [];
    assert base + t + comma + PyString(m.name, o.ensureAscii) + [COLON] + PyText(m.value, o)
        == base + (t + (comma + PyString(m.name, o.ensureAscii) + [COLON] + PyText(m.value, o)));
  }

  /** The body of the loop over an object: the i-th sorted key and its value. */
  method EncodeMember(buf: Buffer, v: Value, key: string, i: nat, o: Options, ghost base: bytes) returns (ok: bool)
    requires v.Obj? && NamesDistinct(v)
    requires i < |SortBy(v.members, NameOf, LessOf(o.utf16Order))| && key == SortBy(v.members, NameOf, LessOf(o.utf16Order))[i].name
    requires buf.data == base + SoFar(v.members, o, i)
    modifies buf
    ensures ok == Floatless(SortBy(v.members, NameOf, LessOf(o.utf16Order))[i].value)
    ensures ok ==> buf.data == base + SoFar(v.members, o, i + 1)
    decreases v, 0
  {
    hide PyText, Floatless, PyString, Distinct, SortBy, PyMembersText, PyMembers, Lookup, HasName, LessOf, SoFar;
    ghost var j := KeyLookUp(v.members, o.utf16Order, i);
    NextMember(base, v.members, o, i);
    if i > 0 {
      buf.Write([COMMA]);
    }
    WritePythonString(buf, key, o.ensureAscii);
    buf.Write([COLON]);
    ok := EncodePython(buf, Lookup(v.members, key), o);
  }

  method EncodeMembers(buf: Buffer, v: Value, o: Options) returns (ok: bool)
    requires v.Obj? && NamesDistinct(v)
    modifies buf
    ensures ok == forall i :: 0 <= i < |v.members| ==> Floatless(v.members[i].value)
    ensures ok ==> buf.data == old(buf.data)
                   + PyMembersText(SortBy(PyMembers(v.members, o), NameOf, LessOf(o.utf16Order)), o.ensureAscii, true)
    decreases v, 1
  {
    hide PyMembersText, PyMembers, PyText, Floatless, PyString, SortBy, Distinct, SoFar, NamesDistinct, LessOf;
    var keys := SortBy(Names(v.members), Self, LessOf(o.utf16Order));
    SortedKeys(v.members, o.utf16Order);
    SoFarEnds(v.members, o);
    for i := 0 to |keys|
      invariant forall k :: 0 <= k < i ==> Floatless(SortBy(v.members, NameOf, LessOf(o.utf16Order))[k].value)
      invariant buf.data == old(buf.data) + SoFar(v.members, o, i)
    {
      ok := EncodeMember(buf, v, keys[i], i, o, old(buf.data));
      if !ok {
        SomeFloat(v.members, o, i);
        return;
      }
    }
    NoFloat(v.members, o);
    return true;
  }

  lemma SoFarEnds(members: seq<Member>, o: Options)
    ensures SoFar(members, o, 0) == []
    ensures SoFar(members, o, |SortBy(members, NameOf, LessOf(o.utf16Order))|)
            == PyMembersText(SortBy(PyMembers(members, o), NameOf, LessOf(o.utf16Order)), o.ensureAscii, true)
  {
    hide SortBy, PyText, LessOf;
    var sorted := SortBy(members, NameOf, LessOf(o.utf16Order));
    NoText(o);
    PySorted(members, o);
    assert sorted[..0] == [] && sorted[..|sorted|] == sorted && Map(sorted[..0], Written(o)) == [];
  }

  lemma SomeFloat(members: seq<Member>, o: Options, i: nat)
    requires i < |SortBy(members, NameOf, LessOf(o.utf16Order))|
    requires !Floatless(SortBy(members, NameOf, LessOf(o.utf16Order))[i].value)
    ensures exists j :: 0 <= j < |members| && !Floatless(members[j].value)
  {
    hide SortBy, Floatless, LessOf;
    var m := SortBy(members, NameOf, LessOf(o.utf16Order))[i];
    SortedFrom(members, NameOf, LessOf(o.utf16Order), m);
    var j :| 0 <= j < |members| && members[j] == m;
  }

  lemma NoFloat(members: seq<Member>, o: Options)
    requires forall k :: 0 <= k < |SortBy(members, NameOf, LessOf(o.utf16Order))| ==>
               Floatless(SortBy(members, NameOf, LessOf(o.utf16Order))[k].value)
    ensures forall i :: 0 <= i < |members| ==> Floatless(members[i].value)
  {
    hide SortBy, Floatless, LessOf;
    var sorted := SortBy(members, NameOf, LessOf(o.utf16Order));
    SortByPermutes(members, NameOf, LessOf(o.utf16Order));
    forall i | 0 <= i < |members| ensures Floatless(members[i].value) {
      assert members[i] in sorted;
    }
  }
}
