/** The JSON grammar of RFC 8259 as concrete syntax trees over bytes, and that the
    documents `Grammatical` reads are exactly their texts. */
module Syntax {
  import opened Core
  import opened Sorting
  import opened Numbers
  import opened Scan
  import opened Json
  import opened Grammar

  // ----- tokens -----

  /** Section 2: space, tab, line feed, carriage return. */
  predicate Blank(w: bytes) {
    forall i :: 0 <= i < |w| ==> w[i] in {0x20, 0x09, 0x0A, 0x0D}
  }

  predicate Figures(ds: bytes) {
    ds != [] && forall i :: 0 <= i < |ds| ==> 0x30 <= ds[i] <= 0x39
  }

  /** Section 6: a minus, an integer without a leading zero, a fraction, an exponent. */
  predicate NumberToken(l: Literal) {
    && Figures(l.whole) && (l.whole[0] == 0x30 ==> |l.whole| == 1)
    && (l.frac.Some? ==> Figures(l.frac.value))
    && (l.exp.Some? ==> l.exp.value.mark in {0x65, 0x45} && Figures(l.exp.value.digits)
                        && (l.exp.value.sign.Some? ==> l.exp.value.sign.value in {0x2B, 0x2D}))
  }

  function TokenText(l: Literal): bytes {
    (if l.neg then [0x2D] else []) + l.whole + (if l.frac.Some? then [0x2E] + l.frac.value else [])
    + (if l.exp.Some? then
         [l.exp.value.mark] + (if l.exp.value.sign.Some? then [l.exp.value.sign.value] else []) + l.exp.value.digits
       else [])
  }

  predicate HexFigure(b: byte) {
    0x30 <= b <= 0x39 || 0x41 <= b <= 0x46 || 0x61 <= b <= 0x66
  }

  predicate ShortEscape(b: bytes): (r: bool)
    ensures r ==> |b| >= 2
  {
    |b| >= 2 && b[0] == 0x5C && b[1] in {0x22, 0x5C, 0x2F, 0x62, 0x66, 0x6E, 0x72, 0x74}
  }

  predicate UnicodeEscape(b: bytes): (r: bool)
    ensures r ==> |b| >= 6
  {
    |b| >= 6 && b[0] == 0x5C && b[1] == 0x75 && HexFigure(b[2]) && HexFigure(b[3]) && HexFigure(b[4]) && HexFigure(b[5])
  }

  predicate Unescaped(b: bytes): (r: bool)
    ensures r ==> |b| >= 1
  {
    b != [] && b[0] >= 0x20 && b[0] != 0x22 && b[0] != 0x5C
  }

  /** Section 7: the bytes between the quotes. */
  predicate StringBody(b: bytes) {
    b == []
    || (ShortEscape(b) && StringBody(b[2..]))
    || (UnicodeEscape(b) && StringBody(b[6..]))
    || (Unescaped(b) && StringBody(b[1..]))
  }

  // ----- trees -----

  /** A value with the white space around it. */
  datatype Doc = Doc(before: bytes, value: Tree, after: bytes)

  datatype Named = Named(before: bytes, name: bytes, middle: bytes, value: Doc)

  /** blank: the inside of an empty array or object. */
  datatype Tree =
    | NullTree
    | TrueTree
    | FalseTree
    | NumberTree(n: Literal)
    | StringTree(body: bytes)
    | ArrayTree(blank: bytes, items: seq<Doc>)
    | ObjectTree(blank: bytes, pairs: seq<Named>)

  predicate DocOk(d: Doc) {
    Blank(d.before) && Blank(d.after) && TreeOk(d.value)
  }

  predicate PairOk(p: Named) {
    Blank(p.before) && StringBody(p.name) && Blank(p.middle) && DocOk(p.value)
  }

  predicate TreeOk(t: Tree) {
    match t
    case NumberTree(n) => NumberToken(n)
    case StringTree(body) => StringBody(body)
    case ArrayTree(blank, items) => Blank(blank) && forall i :: 0 <= i < |items| ==> DocOk(items[i])
    case ObjectTree(blank, pairs) => Blank(blank) && forall i :: 0 <= i < |pairs| ==> PairOk(pairs[i])
    case _ => true
  }

  function DocText(d: Doc): bytes
    decreases d, 0
  {
    d.before + (TreeText(d.value) + d.after)
  }

  function TreeText(t: Tree): bytes
    decreases t, 1
  {
    match t
    case NullTree => [0x6E, 0x75, 0x6C, 0x6C]
    case TrueTree => [0x74, 0x72, 0x75, 0x65]
    case FalseTree => [0x66, 0x61, 0x6C, 0x73, 0x65]
    case NumberTree(n) => TokenText(n)
    case StringTree(body) => [0x22] + body + [0x22]
    case ArrayTree(blank, items) =>
      [0x5B] + if items == [] then blank + [0x5D] else DocText(items[0]) + FurtherItems(items[1..])
    case ObjectTree(blank, pairs) =>
      [0x7B] + if pairs == [] then blank + [0x7D] else PairText(pairs[0]) + FurtherPairs(pairs[1..])
  }

  function FurtherItems(items: seq<Doc>): bytes
    decreases items, 0
  {
    if items == [] then [0x5D] else [0x2C] + (DocText(items[0]) + FurtherItems(items[1..]))
  }

  function PairText(p: Named): bytes
    decreases p, 1
  {
    p.before + ([0x22] + p.name + [0x22] + (p.middle + ([0x3A] + DocText(p.value))))
  }

  function FurtherPairs(pairs: seq<Named>): bytes
    decreases pairs, 0
  {
    if pairs == [] then [0x7D] else [0x2C] + (PairText(pairs[0]) + FurtherPairs(pairs[1..]))
  }

  /** What a tree stands for; strings are decoded as encoding/json decodes them. */
  function Means(t: Tree): Value
    requires TreeOk(t)
    decreases t, 1
  {
    match t
    case NullTree => Null
    case TrueTree => Bool(true)
    case FalseTree => Bool(false)
    case NumberTree(n) =>
      TokenRule(n);
      Num(n)
    case StringTree(body) => Str(Unquote(body))
    case ArrayTree(_, items) => Arr(MeansItems(items))
    case ObjectTree(_, pairs) => Obj(MeansPairs(pairs))
  }

  function MeansItems(items: seq<Doc>): seq<Value>
    requires forall i :: 0 <= i < |items| ==> DocOk(items[i])
    decreases items, 0
  {
    if items == [] then []
    else
      assert DocOk(items[0]);
      [Means(items[0].value)] + MeansItems(items[1..])
  }

  function MeansPairs(pairs: seq<Named>): seq<Member>
    requires forall i :: 0 <= i < |pairs| ==> PairOk(pairs[i])
    decreases pairs, 0
  {
    if pairs == [] then []
    else
      assert PairOk(pairs[0]) && DocOk(pairs[0].value);
      [Entry(Unquote(pairs[0].name), Means(pairs[0].value.value))] + MeansPairs(pairs[1..])
  }

  lemma FiguresRule(ds: bytes)
    ensures Figures(ds) <==> ds != [] && AllDigits(ds)
  {
    if ds != [] && AllDigits(ds) {
      forall i | 0 <= i < |ds| ensures 0x30 <= ds[i] <= 0x39 {
        assert ds[i] in ds;
      }
    }
  }

  lemma TokenRule(l: Literal)
    ensures NumberToken(l) <==> LiteralOk(l)
    ensures TokenText(l) == LiteralText(l)
  {
    FiguresRule(l.whole);
    if l.frac.Some? {
      FiguresRule(l.frac.value);
    }
    if l.exp.Some? {
      FiguresRule(l.exp.value.digits);
    }
  }

  // ----- white space -----

  lemma {:induction false} BlankSkipped(w: bytes, t: bytes)
    requires Blank(w)
    ensures SkipSpace(w + t) == SkipSpace(t)
  {
    if w == [] {
      assert w + t == t;
    } else {
      assert (w + t)[1..] == w[1..] + t;
      BlankSkipped(w[1..], t);
    }
  }

  /** What is skipped is white space. */
  lemma {:induction false} SkippedBlank(s: bytes) returns (w: bytes)
    ensures Blank(w) && s == w + SkipSpace(s)
  {
    if s != [] && IsSpace(s[0]) {
      var more := SkippedBlank(s[1..]);
      w := [s[0]] + more;
    } else {
      w := [];
    }
  }

  // ----- strings -----

  lemma HexRule(h: bytes)
    requires |h| >= 4
    ensures Hex4(h).Some? <==> HexFigure(h[0]) && HexFigure(h[1]) && HexFigure(h[2]) && HexFigure(h[3])
  {
  }

  lemma ShortRule(e: byte)
    ensures ShortChar(e).Some? <==> e in {0x22, 0x5C, 0x2F, 0x62, 0x66, 0x6E, 0x72, 0x74}
  {
  }

  lemma ShortLexedAt(s: bytes)
    requires ShortEscape(s)
    ensures LexBody(s) == Further(2, LexBody(s[2..]))
  {
    hide Hex4;
    ShortRule(s[1]);
  }

  lemma UnicodeLexedAt(s: bytes)
    requires UnicodeEscape(s)
    ensures LexBody(s) == Further(6, LexBody(s[6..]))
  {
    hide Hex4;
    assert s[2..][0] == s[2] && s[2..][1] == s[3] && s[2..][2] == s[4] && s[2..][3] == s[5];
    HexRule(s[2..]);
  }

  lemma UnescapedLexedAt(s: bytes)
    requires Unescaped(s)
    ensures LexBody(s) == Further(1, LexBody(s[1..]))
  {
  }

  lemma {:induction false} BodyLexed(b: bytes, rest: bytes)
    requires StringBody(b)
    ensures LexBody(b + ([0x22] + rest)) == Some(|b| + 1)
    decreases |b|
  {
    hide LexBody, ShortEscape, UnicodeEscape, Unescaped;
    var s := b + ([0x22] + rest);
    if b == [] {
      assert s == [0x22] + rest;
      Closing(s);
    } else if ShortEscape(b) && StringBody(b[2..]) {
      assert ShortEscape(s) && s[2..] == b[2..] + ([0x22] + rest) by { Prefixed(b, [0x22] + rest); }
      ShortLexedAt(s);
      BodyLexed(b[2..], rest);
    } else if UnicodeEscape(b) && StringBody(b[6..]) {
      assert UnicodeEscape(s) && s[6..] == b[6..] + ([0x22] + rest) by { Prefixed(b, [0x22] + rest); }
      UnicodeLexedAt(s);
      BodyLexed(b[6..], rest);
    } else {
      assert Unescaped(s) && s[1..] == b[1..] + ([0x22] + rest) by { Prefixed(b, [0x22] + rest); }
      UnescapedLexedAt(s);
      BodyLexed(b[1..], rest);
    }
  }

  lemma Closing(s: bytes)
    requires s != [] && s[0] == 0x22
    ensures LexBody(s) == Some(1)
  {
  }

  /** What stands at the front of b stands at the front of b + rest. */
  lemma Prefixed(b: bytes, rest: bytes)
    ensures ShortEscape(b) ==> ShortEscape(b + rest) && (b + rest)[2..] == b[2..] + rest
    ensures UnicodeEscape(b) ==> UnicodeEscape(b + rest) && (b + rest)[6..] == b[6..] + rest
    ensures Unescaped(b) ==> Unescaped(b + rest) && (b + rest)[1..] == b[1..] + rest
  {
  }

  lemma {:induction false} LexedBody(s: bytes)
    requires LexBody(s).Some?
    ensures StringBody(s[..LexBody(s).value - 1]) && s[LexBody(s).value - 1] == 0x22
    decreases |s|
  {
    hide LexBody, ShortEscape, UnicodeEscape, Unescaped;
    LexedFront(s);
    var n := LexBody(s).value;
    var b := s[..n - 1];
    if s[0] == QUOTE {
      assert b == [];
    } else if UnicodeEscape(s) {
      UnicodeLexedAt(s);
      LexedBody(s[6..]);
      assert b[6..] == s[6..][..LexBody(s[6..]).value - 1];
      assert UnicodeEscape(b) by { Truncated(s, n - 1); }
    } else if ShortEscape(s) {
      ShortLexedAt(s);
      LexedBody(s[2..]);
      assert b[2..] == s[2..][..LexBody(s[2..]).value - 1];
      assert ShortEscape(b) by { Truncated(s, n - 1); }
    } else {
      UnescapedLexedAt(s);
      LexedBody(s[1..]);
      assert b[1..] == s[1..][..LexBody(s[1..]).value - 1];
      assert Unescaped(b) by { Truncated(s, n - 1); }
    }
  }

  lemma LexedFront(s: bytes)
    requires LexBody(s).Some?
    ensures s != [] && LexBody(s).value >= 1
    ensures s[0] == QUOTE ==> LexBody(s) == Some(1)
    ensures s[0] == QUOTE || UnicodeEscape(s) || ShortEscape(s) || Unescaped(s)
  {
    hide Hex4, ShortChar;
    if s[0] == BACKSLASH {
      if |s| >= 6 && s[1] == 0x75 && Hex4(s[2..]).Some? {
        assert s[2..][0] == s[2] && s[2..][1] == s[3] && s[2..][2] == s[4] && s[2..][3] == s[5];
        HexRule(s[2..]);
      } else {
        ShortRule(s[1]);
      }
    }
  }

  lemma Truncated(s: bytes, n: nat)
    requires n <= |s|
    ensures UnicodeEscape(s) && n >= 6 ==> UnicodeEscape(s[..n])
    ensures ShortEscape(s) && n >= 2 ==> ShortEscape(s[..n])
    ensures Unescaped(s) && n >= 1 ==> Unescaped(s[..n])
  {
  }

  lemma StringReads(body: bytes, rest: bytes)
    requires StringBody(body)
    ensures ParseString([0x22] + body + [0x22] + rest) == Ok(Lexed(Unquote(body), rest))
  {
    hide LexBody, Unquote, StringBody;
    var t := [0x22] + body + [0x22] + rest;
    BodyLexed(body, rest);
    assert t[1..] == body + ([0x22] + rest);
    assert t[1..|body| + 1] == body && t[1 + (|body| + 1)..] == rest;
  }

  /** A literal at the front is quotes around a body. */
  lemma StringShape(t: bytes) returns (body: bytes)
    requires ParseString(t).Ok?
    ensures StringBody(body) && t == [0x22] + body + [0x22] + ParseString(t).value.rest
    ensures ParseString(t).value.token == Unquote(body)
  {
    hide LexBody, Unquote;
    LexedBody(t[1..]);
    var n := LexBody(t[1..]).value;
    body := t[1..n];
    assert body == t[1..][..n - 1];
    assert t[n] == t[1..][n - 1] == 0x22;
    assert t == [t[0]] + t[1..n] + [t[n]] + t[1 + n..];
  }

  // ----- every tree is read -----

  /** What may stand behind a value. */
  predicate Follows(rest: bytes) {
    rest == [] || rest[0] in {0x20, 0x09, 0x0A, 0x0D, 0x2C, 0x5D, 0x7D}
  }

  lemma BlankFollows(w: bytes, rest: bytes)
    requires Blank(w) && Follows(rest)
    ensures Follows(w + rest)
  {
    if w != [] {
      assert (w + rest)[0] == w[0];
    } else {
      assert w + rest == rest;
    }
  }

  predicate Leaf(t: Tree) {
    !t.ArrayTree? && !t.ObjectTree?
  }

  lemma LeafReads(t: Tree, rest: bytes)
    requires TreeOk(t) && Leaf(t) && Follows(rest)
    ensures var s := TreeText(t) + rest;
            s != [] && !IsSpace(s[0]) && s[0] != OPEN_BRACE && s[0] != OPEN_BRACKET && s[0] != CLOSE_BRACE && s[0] != CLOSE_BRACKET
            && s[0] != COMMA && ReadScalar(s) == Some(Lexed(Means(t), rest))
  {
    hide LexNumber, LiteralText, TokenText, ParseString, Unquote;
    var s := TreeText(t) + rest;
    match t
    case NumberTree(n) =>
      TokenRule(n);
      LexNumberText(n, rest);
      NumberStart(n, rest);
    case StringTree(body) =>
      StringReads(body, rest);
    case NullTree =>
      assert NULL_TEXT <= s && s[4..] == rest;
    case TrueTree =>
      assert TRUE_TEXT <= s && s[4..] == rest;
    case FalseTree =>
      assert FALSE_TEXT <= s && s[5..] == rest;
  }

  /** The first byte of a value starts no white space and closes nothing. */
  lemma TreeStarts(t: Tree, rest: bytes)
    requires TreeOk(t) && Follows(rest)
    ensures var s := TreeText(t) + rest;
            s != [] && !IsSpace(s[0]) && s[0] != CLOSE_BRACE && s[0] != CLOSE_BRACKET && s[0] != COMMA
  {
    hide ReadScalar, DocText, PairText, FurtherItems, FurtherPairs;
    if Leaf(t) {
      LeafReads(t, rest);
    }
  }

  lemma {:induction false} DocReads(d: Doc, rest: bytes)
    requires DocOk(d) && Follows(d.after + rest)
    ensures ReadValue(d.before + (TreeText(d.value) + (d.after + rest))) == Some(Lexed(Means(d.value), d.after + rest))
    decreases d, 2
  {
    hide ReadScalar, TreeText, SkipSpace, ReadItems, ReadMembers, Means;
    var tail := d.after + rest;
    BlankSkipped(d.before, TreeText(d.value) + tail);
    TreeStarts(d.value, tail);
    SkipNothing(TreeText(d.value) + tail);
    TreeReads(d.value, tail);
  }

  lemma SkipNothing(s: bytes)
    requires s != [] && !IsSpace(s[0])
    ensures SkipSpace(s) == s
  {
  }

  lemma {:induction false} TreeReads(t: Tree, rest: bytes)
    requires TreeOk(t) && Follows(rest)
    ensures var s := TreeText(t) + rest;
            s != [] && !IsSpace(s[0])
            && (if s[0] == OPEN_BRACE then
                  ReadMembers(s[1..], []).Some? && Means(t) == Obj(ReadMembers(s[1..], []).value.token)
                  && ReadMembers(s[1..], []).value.rest == rest
                else if s[0] == OPEN_BRACKET then
                  ReadItems(s[1..], []).Some? && Means(t) == Arr(ReadItems(s[1..], []).value.token)
                  && ReadItems(s[1..], []).value.rest == rest
                else ReadScalar(s) == Some(Lexed(Means(t), rest)))
    decreases t, 3
  {
    hide ReadScalar, SkipSpace, ReadItems, ReadMembers, DocText, PairText, FurtherItems, FurtherPairs;
    var s := TreeText(t) + rest;
    match t
    case ArrayTree(blank, items) =>
      if items == [] {
        assert s[1..] == blank + ([0x5D] + rest);
        ClosesItems(blank, rest, []);
      } else {
        assert s[1..] == DocText(items[0]) + FurtherItems(items[1..]) + rest;
        FirstItemReads(items, rest);
      }
    case ObjectTree(blank, pairs) =>
      if pairs == [] {
        assert s[1..] == blank + ([0x7D] + rest);
        ClosesMembers(blank, rest, []);
      } else {
        assert s[1..] == PairText(pairs[0]) + FurtherPairs(pairs[1..]) + rest;
        FirstPairReads(pairs, rest);
      }
    case _ =>
      LeafReads(t, rest);
  }

  lemma ClosesItems(w: bytes, rest: bytes, acc: seq<Value>)
    requires Blank(w)
    ensures ReadItems(w + ([0x5D] + rest), acc) == Some(Lexed(acc, rest))
  {
    BlankSkipped(w, [0x5D] + rest);
    assert ([0x5D] + rest)[1..] == rest;
  }

  lemma ClosesMembers(w: bytes, rest: bytes, acc: seq<Member>)
    requires Blank(w)
    ensures ReadMembers(w + ([0x7D] + rest), acc) == Some(Lexed(acc, rest))
  {
    BlankSkipped(w, [0x7D] + rest);
    assert ([0x7D] + rest)[1..] == rest;
  }

  lemma FurtherFollows(items: seq<Doc>, pairs: seq<Named>, rest: bytes)
    ensures Follows(FurtherItems(items) + rest) && Follows(FurtherPairs(pairs) + rest)
  {
  }

  lemma {:induction false} FirstItemReads(items: seq<Doc>, rest: bytes)
    requires items != [] && forall i :: 0 <= i < |items| ==> DocOk(items[i])
    ensures ReadItems(DocText(items[0]) + FurtherItems(items[1..]) + rest, []) == Some(Lexed(MeansItems(items), rest))
    decreases items, 1
  {
    hide ReadScalar, TreeText, SkipSpace, ReadValue, Means, FurtherItems, ReadItems;
    var d, more := items[0], FurtherItems(items[1..]) + rest;
    var s := DocText(d) + FurtherItems(items[1..]) + rest;
    assert s == d.before + (TreeText(d.value) + (d.after + more));
    FurtherFollows(items[1..], [], rest);
    BlankFollows(d.after, more);
    BlankSkipped(d.before, TreeText(d.value) + (d.after + more));
    TreeStarts(d.value, d.after + more);
    SkipNothing(TreeText(d.value) + (d.after + more));
    DocReads(d, more);
    ReadSkips(s);
    ItemsStep(s, []);
    FurtherItemsRead(items[1..], d.after, rest, [Means(d.value)]);
    assert [] + [Means(d.value)] == [Means(d.value)];
  }

  lemma ReadSkips(s: bytes)
    ensures ReadValue(SkipSpace(s)) == ReadValue(s)
  {
    hide ReadScalar, ReadItems, ReadMembers;
  }

  /** One step of the reader over an array. */
  lemma ItemsStep(s: bytes, acc: seq<Value>)
    ensures var t := SkipSpace(s);
            t != [] && t[0] != CLOSE_BRACKET && (acc != [] ==> t[0] == COMMA) ==>
              var v := ReadValue(if acc == [] then t else t[1..]);
              ReadItems(s, acc) == if v.None? then None else ReadItems(v.value.rest, acc + [v.value.token])
  {
    hide ReadValue, SkipSpace;
  }

  lemma Regrouped<T>(a: seq<T>, x: T, c: seq<T>)
    ensures a + [x] + c == a + ([x] + c)
  {
  }

  /** An array goes on behind a comma. */
  lemma ItemStep(w: bytes, text: bytes, v: Value, behind: bytes, acc: seq<Value>)
    requires Blank(w) && acc != [] && ReadValue(text) == Some(Lexed(v, behind))
    ensures ReadItems(w + ([0x2C] + text), acc) == ReadItems(behind, acc + [v])
  {
    hide SkipSpace, ReadValue, ReadItems, Blank;
    BlankSkipped(w, [0x2C] + text);
    SkipNothing([0x2C] + text);
    assert ([0x2C] + text)[1..] == text;
    ItemsStep(w + ([0x2C] + text), acc);
  }

  lemma FurtherItemsText(items: seq<Doc>, rest: bytes)
    requires items != []
    ensures var d := items[0];
            FurtherItems(items) + rest
            == [0x2C] + (d.before + (TreeText(d.value) + (d.after + (FurtherItems(items[1..]) + rest))))
  {
    hide TreeText;
    var d, further := items[0], FurtherItems(items[1..]);
    assert DocText(d) + further + rest == d.before + (TreeText(d.value) + (d.after + (further + rest)));
  }

  lemma {:induction false} FurtherItemsRead(items: seq<Doc>, w: bytes, rest: bytes, acc: seq<Value>)
    requires Blank(w) && acc != [] && forall i :: 0 <= i < |items| ==> DocOk(items[i])
    ensures ReadItems(w + (FurtherItems(items) + rest), acc) == Some(Lexed(acc + MeansItems(items), rest))
    decreases items, 0
  {
    hide ReadScalar, TreeText, SkipSpace, ReadValue, Means, ReadItems, FurtherItems, Blank, Follows;
    NoFurther();
    if items == [] {
      ClosesItems(w, rest, acc);
      assert acc + [] == acc;
    } else {
      var d, more := items[0], FurtherItems(items[1..]) + rest;
      FurtherItemsText(items, rest);
      FurtherFollows(items[1..], [], rest);
      BlankFollows(d.after, more);
      DocReads(d, more);
      ItemStep(w, d.before + (TreeText(d.value) + (d.after + more)), Means(d.value), d.after + more, acc);
      FurtherItemsRead(items[1..], d.after, rest, acc + [Means(d.value)]);
      Regrouped(acc, Means(d.value), MeansItems(items[1..]));
    }
  }

  lemma NameReads(p: Named, more: bytes)
    requires PairOk(p)
    ensures var s := p.before + ([0x22] + p.name + [0x22] + (p.middle + ([0x3A] + more)));
            ReadName(s) == Some(Lexed(Unquote(p.name), more)) && SkipSpace(s) != [] && SkipSpace(s)[0] == QUOTE
            && ReadName(SkipSpace(s)) == ReadName(s)
  {
    hide ParseString, SkipSpace, Unquote;
    var after := p.middle + ([0x3A] + more);
    var text := [0x22] + p.name + [0x22] + after;
    BlankSkipped(p.before, text);
    SkipNothing(text);
    StringReads(p.name, after);
    BlankSkipped(p.middle, [0x3A] + more);
    SkipNothing([0x3A] + more);
    assert ([0x3A] + more)[1..] == more;
  }

  lemma PairGrouped(p: Named, more: bytes)
    ensures PairText(p) + more
            == p.before + ([0x22] + p.name + [0x22]
                           + (p.middle + ([0x3A] + (p.value.before + (TreeText(p.value.value) + (p.value.after + more))))))
  {
    hide TreeText;
    var tree := TreeText(p.value.value);
    var text := p.value.before + (tree + (p.value.after + more));
    assert DocText(p.value) + more == text;
    assert [0x3A] + DocText(p.value) + more == [0x3A] + text;
    var tail := p.middle + ([0x3A] + DocText(p.value));
    assert tail + more == p.middle + ([0x3A] + text);
    var quoted := [0x22] + p.name + [0x22];
    assert PairText(p) == p.before + (quoted + tail);
    assert p.before + (quoted + tail) + more == p.before + (quoted + (tail + more));
  }

  lemma MembersStep(s: bytes, acc: seq<Member>)
    ensures var t := SkipSpace(s);
            t != [] && t[0] != CLOSE_BRACE && (acc != [] ==> t[0] == COMMA) ==>
              var name := ReadName(if acc == [] then t else t[1..]);
              name.Some? ==>
                var v := ReadValue(name.value.rest);
                v.Some? ==> ReadMembers(s, acc) == ReadMembers(v.value.rest, acc + [Entry(name.value.token, v.value.token)])
  {
    hide ReadValue, ReadName, SkipSpace;
  }

  lemma {:induction false} FirstPairReads(pairs: seq<Named>, rest: bytes)
    requires pairs != [] && forall i :: 0 <= i < |pairs| ==> PairOk(pairs[i])
    ensures ReadMembers(PairText(pairs[0]) + FurtherPairs(pairs[1..]) + rest, []) == Some(Lexed(MeansPairs(pairs), rest))
    decreases pairs, 1
  {
    hide TreeText, SkipSpace, ReadValue, ReadName, Means, FurtherPairs, ReadMembers;
    var p, more := pairs[0], FurtherPairs(pairs[1..]) + rest;
    var s := PairText(p) + FurtherPairs(pairs[1..]) + rest;
    var d := p.value;
    var text := d.before + (TreeText(d.value) + (d.after + more));
    PairGrouped(p, more);
    assert s == PairText(p) + more;
    NameReads(p, text);
    FurtherFollows([], pairs[1..], rest);
    BlankFollows(d.after, more);
    DocReads(d, more);
    MembersStep(s, []);
    var entry := Entry(Unquote(p.name), Means(d.value));
    assert [] + [entry] == [entry];
    FurtherPairsRead(pairs[1..], d.after, rest, [entry]);
  }

  /** An object goes on behind a comma. */
  lemma MemberStep(w: bytes, text: bytes, name: string, after: bytes, v: Value, behind: bytes, acc: seq<Member>)
    requires Blank(w) && acc != []
    requires ReadName(text) == Some(Lexed(name, after)) && ReadValue(after) == Some(Lexed(v, behind))
    ensures ReadMembers(w + ([0x2C] + text), acc) == ReadMembers(behind, acc + [Entry(name, v)])
  {
    hide SkipSpace, ReadName, ReadValue, ReadMembers, Blank;
    BlankSkipped(w, [0x2C] + text);
    SkipNothing([0x2C] + text);
    assert ([0x2C] + text)[1..] == text;
    MembersStep(w + ([0x2C] + text), acc);
  }

  lemma FurtherPairsText(pairs: seq<Named>, rest: bytes)
    requires pairs != []
    ensures FurtherPairs(pairs) + rest == [0x2C] + (PairText(pairs[0]) + (FurtherPairs(pairs[1..]) + rest))
  {
    hide PairText;
  }

  lemma {:induction false} FurtherPairsRead(pairs: seq<Named>, w: bytes, rest: bytes, acc: seq<Member>)
    requires Blank(w) && acc != [] && forall i :: 0 <= i < |pairs| ==> PairOk(pairs[i])
    ensures ReadMembers(w + (FurtherPairs(pairs) + rest), acc) == Some(Lexed(acc + MeansPairs(pairs), rest))
    decreases pairs, 0
  {
    hide TreeText, SkipSpace, ReadValue, ReadName, Means, ReadMembers, FurtherPairs, PairText, Unquote, StringBody, Blank, Follows;
    NoFurther();
    if pairs == [] {
      ClosesMembers(w, rest, acc);
      assert acc + [] == acc;
    } else {
      var p, more := pairs[0], FurtherPairs(pairs[1..]) + rest;
      var d := p.value;
      assert PairOk(p) && DocOk(d);
      FurtherPairsText(pairs, rest);
      PairGrouped(p, more);
      FurtherFollows([], pairs[1..], rest);
      BlankFollows(d.after, more);
      DocReads(d, more);
      var text := d.before + (TreeText(d.value) + (d.after + more));
      NameReads(p, text);
      var entry := Entry(Unquote(p.name), Means(d.value));
      MemberStep(w, PairText(p) + more, entry.name, text, entry.value, d.after + more, acc);
      FurtherPairsRead(pairs[1..], d.after, rest, acc + [entry]);
      Regrouped(acc, entry, MeansPairs(pairs[1..]));
    }
  }

  /** Every text of the grammar is read, as what its tree stands for, however it is
      spaced. */
  lemma TextsAreRead(d: Doc)
    requires DocOk(d)
    ensures Grammatical(DocText(d)) == Some(Means(d.value))
  {
    hide ReadValue, TreeText, Means, SkipSpace;
    assert d.after + [] == d.after;
    BlankFollows(d.after, []);
    DocReads(d, []);
    BlankSkipped(d.after, []);
    assert SkipSpace([]) == [] by { SkipsEnd(); }
  }

  lemma SkipsEnd()
    ensures SkipSpace([]) == []
  {
  }

  // ----- whatever is read is a text of the grammar -----

  lemma LeafShape(t: bytes) returns (tree: Tree)
    requires t != [] && t[0] != OPEN_BRACE && t[0] != OPEN_BRACKET && ReadScalar(t).Some?
    ensures TreeOk(tree) && t == TreeText(tree) + ReadScalar(t).value.rest && Means(tree) == ReadScalar(t).value.token
  {
    hide LexNumber, LiteralText, TokenText, ParseString, Unquote;
    if t[0] == MINUS || IsDigit(t[0]) {
      var n := LexNumber(t).value.token;
      TokenRule(n);
      tree := NumberTree(n);
    } else if t[0] == QUOTE {
      var body := StringShape(t);
      tree := StringTree(body);
    } else if t[0] == 0x74 {
      tree := TrueTree;
    } else if t[0] == 0x66 {
      tree := FalseTree;
    } else {
      tree := NullTree;
    }
  }

  lemma {:induction false} ValueShape(s: bytes) returns (w: bytes, tree: Tree)
    requires ReadValue(s).Some?
    ensures Blank(w) && TreeOk(tree) && s == w + (TreeText(tree) + ReadValue(s).value.rest)
    ensures Means(tree) == ReadValue(s).value.token
    decreases |s|, 0
  {
    hide ReadScalar, SkipSpace, ReadItems, ReadMembers, DocText, PairText, FurtherItems, FurtherPairs;
    w := SkippedBlank(s);
    var t := SkipSpace(s);
    if t[0] == OPEN_BRACE {
      tree := ObjectShape(t[1..]);
      assert t == [0x7B] + t[1..];
    } else if t[0] == OPEN_BRACKET {
      tree := ArrayShape(t[1..]);
      assert t == [0x5B] + t[1..];
    } else {
      tree := LeafShape(t);
    }
  }

  /** The inside of an array from its first byte on. */
  lemma {:induction false} ArrayShape(s: bytes) returns (tree: Tree)
    requires ReadItems(s, []).Some?
    ensures TreeOk(tree) && [0x5B] + s == TreeText(tree) + ReadItems(s, []).value.rest
    ensures Means(tree) == Arr(ReadItems(s, []).value.token)
    decreases |s|, 2
  {
    hide ReadScalar, SkipSpace, ReadValue, FurtherItems, Means;
    var t := SkipSpace(s);
    var rest := ReadItems(s, []).value.rest;
    if t[0] == CLOSE_BRACKET {
      var w := SkippedBlank(s);
      tree := ArrayTree(w, []);
      assert s == w + [0x5D] + rest;
      assert Means(tree) == Arr([]) by { Empties(w); }
    } else {
      ReadSkips(s);
      var v := ReadValue(s).value;
      var before, value := ValueShape(s);
      ItemsStep(s, []);
      assert [] + [v.token] == [v.token];
      var after, items := ItemsShape(v.rest, [v.token]);
      var d := Doc(before, value, after);
      FirstItem(d, items);
      tree := ArrayTree([], [d] + items);
      ItemGrouped(d, FurtherItems(items), rest);
      assert s == DocText(d) + FurtherItems(items) + rest;
    }
  }

  lemma Empties(w: bytes)
    requires Blank(w)
    ensures Means(ArrayTree(w, [])) == Arr([]) && Means(ObjectTree(w, [])) == Obj([])
  {
  }

  lemma ItemGrouped(d: Doc, more: bytes, rest: bytes)
    ensures DocText(d) + more + rest == d.before + (TreeText(d.value) + (d.after + (more + rest)))
  {
    hide TreeText;
  }

  /** A document in front of others. */
  lemma {:induction false} FirstItem(d: Doc, items: seq<Doc>)
    requires DocOk(d) && forall i :: 0 <= i < |items| ==> DocOk(items[i])
    ensures var all := [d] + items;
            && (forall i :: 0 <= i < |all| ==> DocOk(all[i]))
            && MeansItems(all) == [Means(d.value)] + MeansItems(items)
            && FurtherItems(all) == [0x2C] + (DocText(d) + FurtherItems(items))
            && TreeText(ArrayTree([], all)) == [0x5B] + (DocText(d) + FurtherItems(items))
            && Means(ArrayTree([], all)) == Arr([Means(d.value)] + MeansItems(items))
  {
    var all := [d] + items;
    assert all[0] == d && all[1..] == items;
  }

  /** The rest of an array behind an element. */
  lemma {:induction false} ItemsShape(s: bytes, acc: seq<Value>) returns (w: bytes, items: seq<Doc>)
    requires acc != [] && ReadItems(s, acc).Some?
    ensures Blank(w) && (forall i :: 0 <= i < |items| ==> DocOk(items[i]))
    ensures s == w + (FurtherItems(items) + ReadItems(s, acc).value.rest)
    ensures acc + MeansItems(items) == ReadItems(s, acc).value.token
    decreases |s|, 1
  {
    hide ReadScalar, SkipSpace, ReadValue, Means, TreeText, DocText, ReadItems, Blank, FurtherItems;
    w := SkippedBlank(s);
    var t := SkipSpace(s);
    var rest := ReadItems(s, acc).value.rest;
    ItemsStop(s, acc);
    NoFurther();
    if t[0] == CLOSE_BRACKET {
      items := [];
      assert acc + [] == acc;
    } else {
      var v := ReadValue(t[1..]).value;
      var before, value := ValueShape(t[1..]);
      ItemsStep(s, acc);
      var after, others := ItemsShape(v.rest, acc + [v.token]);
      var d := Doc(before, value, after);
      FirstItem(d, others);
      items := [d] + others;
      ItemGrouped(d, FurtherItems(others), rest);
      ItemText(DocText(d), FurtherItems(others), rest);
      assert t == [0x2C] + t[1..];
      Regrouped(acc, v.token, MeansItems(others));
    }
  }

  lemma ItemText(first: bytes, further: bytes, rest: bytes)
    ensures [0x2C] + (first + further) + rest == [0x2C] + (first + further + rest)
  {
  }

  /** Where the reader over an array stops, and what it goes on from. */
  lemma ItemsStop(s: bytes, acc: seq<Value>)
    requires acc != [] && ReadItems(s, acc).Some?
    ensures var t := SkipSpace(s);
            && t != []
            && (if t[0] == CLOSE_BRACKET then
                  t == [0x5D] + ReadItems(s, acc).value.rest && ReadItems(s, acc).value.token == acc
                else t[0] == COMMA && ReadValue(t[1..]).Some?)
  {
    hide ReadValue, SkipSpace;
  }

  /** The inside of an object from its first byte on. */
  lemma {:induction false} ObjectShape(s: bytes) returns (tree: Tree)
    requires ReadMembers(s, []).Some?
    ensures TreeOk(tree) && [0x7B] + s == TreeText(tree) + ReadMembers(s, []).value.rest
    ensures Means(tree) == Obj(ReadMembers(s, []).value.token)
    decreases |s|, 2
  {
    hide ReadScalar, SkipSpace, ReadValue, ReadName, FurtherPairs, Means, PairText;
    var t := SkipSpace(s);
    var rest := ReadMembers(s, []).value.rest;
    if t[0] == CLOSE_BRACE {
      var w := SkippedBlank(s);
      tree := ObjectTree(w, []);
      assert s == w + [0x7D] + rest;
      assert Means(tree) == Obj([]) by { Empties(w); }
    } else {
      NameSkips(s);
      var before, name, middle := NameShape(s);
      var u := ReadName(s).value.rest;
      var v := ReadValue(u).value;
      var blank, value := ValueShape(u);
      var entry := Entry(ReadName(s).value.token, v.token);
      MembersStep(s, []);
      assert [] + [entry] == [entry];
      var after, pairs := MembersShape(v.rest, [entry]);
      var p := Named(before, name, middle, Doc(blank, value, after));
      FirstPair(p, pairs);
      tree := ObjectTree([], [p] + pairs);
      PairGrouped(p, FurtherPairs(pairs) + rest);
      assert s == PairText(p) + FurtherPairs(pairs) + rest;
    }
  }

  lemma NameSkips(s: bytes)
    ensures ReadName(SkipSpace(s)) == ReadName(s)
  {
    hide ParseString;
  }

  lemma NameShape(s: bytes) returns (before: bytes, name: bytes, middle: bytes)
    requires ReadName(s).Some?
    ensures Blank(before) && StringBody(name) && Blank(middle) && ReadName(s).value.token == Unquote(name)
    ensures s == before + ([0x22] + name + [0x22] + (middle + ([0x3A] + ReadName(s).value.rest)))
  {
    hide ParseString, SkipSpace, Unquote;
    before := SkippedBlank(s);
    var t := SkipSpace(s);
    name := StringShape(t);
    var behind := ParseString(t).value.rest;
    middle := SkippedBlank(behind);
    var u := SkipSpace(behind);
    assert u == [0x3A] + u[1..];
  }

  lemma {:induction false} FirstPair(p: Named, pairs: seq<Named>)
    requires PairOk(p) && forall i :: 0 <= i < |pairs| ==> PairOk(pairs[i])
    ensures var all := [p] + pairs;
            && (forall i :: 0 <= i < |all| ==> PairOk(all[i])) && DocOk(p.value)
            && MeansPairs(all) == [Entry(Unquote(p.name), Means(p.value.value))] + MeansPairs(pairs)
            && FurtherPairs(all) == [0x2C] + (PairText(p) + FurtherPairs(pairs))
            && TreeText(ObjectTree([], all)) == [0x7B] + (PairText(p) + FurtherPairs(pairs))
            && Means(ObjectTree([], all)) == Obj(MeansPairs(all))
  {
    hide Unquote, StringBody;
    var all := [p] + pairs;
    assert all[0] == p && all[1..] == pairs;
  }

  lemma {:induction false} MembersShape(s: bytes, acc: seq<Member>) returns (w: bytes, pairs: seq<Named>)
    requires acc != [] && ReadMembers(s, acc).Some?
    ensures Blank(w) && (forall i :: 0 <= i < |pairs| ==> PairOk(pairs[i]))
    ensures s == w + (FurtherPairs(pairs) + ReadMembers(s, acc).value.rest)
    ensures acc + MeansPairs(pairs) == ReadMembers(s, acc).value.token
    decreases |s|, 1
  {
    hide ReadScalar, SkipSpace, ReadValue, ReadName, Means, TreeText, PairText, ReadMembers, Blank, StringBody, FurtherPairs;
    w := SkippedBlank(s);
    var t := SkipSpace(s);
    var rest := ReadMembers(s, acc).value.rest;
    MembersStop(s, acc);
    if t[0] == CLOSE_BRACE {
      pairs := [];
      assert FurtherPairs([]) == [0x7D] by { NoFurther(); }
      assert acc + [] == acc;
    } else {
      var before, name, middle := NameShape(t[1..]);
      var u := ReadName(t[1..]).value.rest;
      var v := ReadValue(u).value;
      var blank, value := ValueShape(u);
      var entry := Entry(ReadName(t[1..]).value.token, v.token);
      MembersStep(s, acc);
      var after, others := MembersShape(v.rest, acc + [entry]);
      var p := Named(before, name, middle, Doc(blank, value, after));
      FirstPair(p, others);
      pairs := [p] + others;
      PairGrouped(p, FurtherPairs(others) + rest);
      assert t[1..] == PairText(p) + (FurtherPairs(others) + rest);
      assert t == [0x2C] + t[1..];
      Regrouped(acc, entry, MeansPairs(others));
    }
  }

  lemma NoFurther()
    ensures FurtherPairs([]) == [0x7D] && FurtherItems([]) == [0x5D]
  {
  }

  /** Where the reader over an object stops, and what it goes on from. */
  lemma MembersStop(s: bytes, acc: seq<Member>)
    requires ReadMembers(s, acc).Some?
    ensures var t := SkipSpace(s);
            && t != []
            && (if t[0] == CLOSE_BRACE then
                  t == [0x7D] + ReadMembers(s, acc).value.rest && ReadMembers(s, acc).value.token == acc
                else
                  && (acc != [] ==> t[0] == COMMA)
                  && var name := ReadName(if acc == [] then t else t[1..]);
                  && name.Some? && ReadValue(name.value.rest).Some?)
  {
    hide ReadValue, ReadName, SkipSpace;
  }

  /** The documents `Grammatical` reads as v are the texts of the trees that stand for v:
      between two tokens it takes the four blank bytes and no other. */
  lemma GrammarExactly(raw: bytes, v: Value)
    ensures Grammatical(raw) == Some(v) <==> exists d :: DocOk(d) && DocText(d) == raw && Means(d.value) == v
  {
    hide ReadValue, TreeText, Means, SkipSpace;
    if Grammatical(raw) == Some(v) {
      var before, tree := ValueShape(raw);
      var after := SkippedBlank(ReadValue(raw).value.rest);
      var d := Doc(before, tree, after);
      assert after + [] == after;
      assert DocOk(d) && DocText(d) == raw;
    }
    if d :| DocOk(d) && DocText(d) == raw && Means(d.value) == v {
      TextsAreRead(d);
    }
  }
}
