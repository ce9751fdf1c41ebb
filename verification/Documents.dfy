/** Which texts the strict parser accepts, told on the concrete syntax trees of the JSON
    grammar alone, and that white space between tokens is without effect. */
module Documents {
  import opened Core
  import opened Sorting
  import opened Numbers
  import opened Scan
  import opened Json
  import opened Grammar
  import opened Parsed
  import opened Literals
  import opened Syntax

  /** Every number is an integer of magnitude below 2^53, in any notation; every literal
      denotes clean scalar values; no object repeats a name. */
  ghost predicate Fine(t: Tree)
    requires TreeOk(t)
  {
    match t
    case NumberTree(n) =>
      TokenRule(n);
      exists k: int :: IsThe(n, k) && -9007199254740991 <= k <= 9007199254740991
    case StringTree(body) => Scalars(body)
    case ArrayTree(_, items) => forall i :: 0 <= i < |items| ==> DocOk(items[i]) && TreeOk(items[i].value) && Fine(items[i].value)
    case ObjectTree(_, pairs) =>
      && (forall i, j :: 0 <= i < j < |pairs| ==> Unquote(pairs[i].name) != Unquote(pairs[j].name))
      && forall i :: 0 <= i < |pairs| ==> PairOk(pairs[i]) && DocOk(pairs[i].value) && TreeOk(pairs[i].value.value)
                                          && Scalars(pairs[i].name) && Fine(pairs[i].value.value)
    case _ => true
  }

  predicate IsThe(n: Literal, k: int)
    requires NumberToken(n)
  {
    TokenRule(n);
    Numbers.Value(n) == k as real
  }

  /** Every string literal denotes clean scalar values. */
  ghost predicate CleanTree(t: Tree) {
    match t
    case StringTree(body) => Scalars(body)
    case ArrayTree(_, items) => forall i :: 0 <= i < |items| ==> CleanTree(items[i].value)
    case ObjectTree(_, pairs) => forall i :: 0 <= i < |pairs| ==> Scalars(pairs[i].name) && CleanTree(pairs[i].value.value)
    case _ => true
  }

  /** The containers on a deepest path. */
  function Nesting(t: Tree): nat
    decreases t, 1
  {
    match t
    case ArrayTree(_, items) => 1 + NestingOfItems(items)
    case ObjectTree(_, pairs) => 1 + NestingOfPairs(pairs)
    case _ => 0
  }

  function NestingOfItems(items: seq<Doc>): nat
    decreases items, 0
  {
    if items == [] then 0 else Max(Nesting(items[0].value), NestingOfItems(items[1..]))
  }

  function NestingOfPairs(pairs: seq<Named>): nat
    decreases pairs, 0
  {
    if pairs == [] then 0 else Max(Nesting(pairs[0].value.value), NestingOfPairs(pairs[1..]))
  }

  // ----- the value a tree stands for -----

  lemma {:induction false} MeansItemsAt(items: seq<Doc>)
    requires forall i :: 0 <= i < |items| ==> DocOk(items[i])
    ensures |MeansItems(items)| == |items|
    ensures forall i :: 0 <= i < |items| ==> MeansItems(items)[i] == Means(items[i].value)
  {
    hide Means, Unquote;
    if items != [] {
      MeansItemsAt(items[1..]);
    }
  }

  lemma {:induction false} MeansPairsAt(pairs: seq<Named>)
    requires forall i :: 0 <= i < |pairs| ==> PairOk(pairs[i])
    ensures |MeansPairs(pairs)| == |pairs|
    ensures forall i :: 0 <= i < |pairs| ==>
              DocOk(pairs[i].value) && TreeOk(pairs[i].value.value)
              && MeansPairs(pairs)[i] == Entry(Unquote(pairs[i].name), Means(pairs[i].value.value))
  {
    hide Means, Unquote, StringBody;
    if pairs != [] {
      MeansPairsAt(pairs[1..]);
    }
  }

  lemma {:induction false} NestingIsDepth(t: Tree)
    requires TreeOk(t)
    ensures Nesting(t) == Depth(Means(t))
    decreases t, 1
  {
    hide Unquote, StringBody, LiteralOk, NumberToken;
    match t
    case ArrayTree(_, items) => NestingOfItemsIsDepth(items);
    case ObjectTree(_, pairs) => NestingOfPairsIsDepth(pairs);
    case _ =>
  }

  lemma {:induction false} NestingOfItemsIsDepth(items: seq<Doc>)
    requires forall i :: 0 <= i < |items| ==> DocOk(items[i])
    ensures NestingOfItems(items) == ItemsDepth(MeansItems(items))
    decreases items, 0
  {
    hide Means;
    if items != [] {
      NestingIsDepth(items[0].value);
      NestingOfItemsIsDepth(items[1..]);
    }
  }

  lemma {:induction false} NestingOfPairsIsDepth(pairs: seq<Named>)
    requires forall i :: 0 <= i < |pairs| ==> PairOk(pairs[i])
    ensures NestingOfPairs(pairs) == MembersDepth(MeansPairs(pairs))
    decreases pairs, 0
  {
    hide Means, Unquote, StringBody;
    if pairs != [] {
      assert PairOk(pairs[0]) && DocOk(pairs[0].value);
      NestingIsDepth(pairs[0].value.value);
      NestingOfPairsIsDepth(pairs[1..]);
    }
  }

  lemma {:induction false} FineIs(t: Tree)
    requires TreeOk(t)
    ensures Fine(t) <==> CleanTree(t) && NoRepeats(Means(t)) && Profiled(Means(t))
  {
    hide Unquote, StringBody, Scalars, LiteralOk, NumberToken;
    match t
    case NumberTree(n) =>
      NumberFine(n);
    case ArrayTree(_, items) =>
      MeansItemsAt(items);
      forall i | 0 <= i < |items|
        ensures Fine(items[i].value) <==>
                CleanTree(items[i].value) && NoRepeats(Means(items[i].value)) && Profiled(Means(items[i].value))
      {
        FineIs(items[i].value);
      }
    case ObjectTree(_, pairs) =>
      MeansPairsAt(pairs);
      forall i | 0 <= i < |pairs|
        ensures Fine(pairs[i].value.value) <==>
                CleanTree(pairs[i].value.value) && NoRepeats(Means(pairs[i].value.value)) && Profiled(Means(pairs[i].value.value))
      {
        FineIs(pairs[i].value.value);
      }
    case _ =>
  }

  lemma NumberFine(n: Literal)
    requires NumberToken(n)
    ensures Fine(NumberTree(n)) <==> LiteralOk(n) && CheckSafeInteger(n).SafeInteger?
  {
    hide NumberToken, LiteralOk, CheckSafeInteger;
    TokenRule(n);
    AcceptedExactly(n);
    if k: int :| Numbers.Value(n) == k as real && Safe(k) {
      assert IsThe(n, k);
    }
    if k: int :| IsThe(n, k) && -9007199254740991 <= k <= 9007199254740991 {
      assert Numbers.Value(n) == k as real && Safe(k);
    }
  }

  // ----- the scan of the string literals -----

  lemma BlankNoQuote(w: bytes)
    requires Blank(w)
    ensures NoQuote(w)
  {
  }

  lemma LiteralScans(body: bytes, rest: bytes)
    requires StringBody(body)
    ensures ScanDocument([0x22] + body + [0x22] + rest) <==> Scalars(body) && ScanDocument(rest)
  {
    hide ScanDocument, Scalars, Unquote, LexBody, StringBody;
    var t := [0x22] + body + [0x22] + rest;
    StringReads(body, rest);
    StringScans(t);
    BodyLexed(body, rest);
    assert t[1..] == body + ([0x22] + rest);
    assert t[1..|body| + 1] == body;
  }

  lemma {:induction false} DocScans(d: Doc, rest: bytes)
    requires DocOk(d)
    ensures ScanDocument(DocText(d) + rest) <==> CleanTree(d.value) && ScanDocument(rest)
    decreases d, 2
  {
    hide ScanDocument, TreeText, CleanTree;
    BlankNoQuote(d.before);
    BlankNoQuote(d.after);
    assert DocText(d) + rest == d.before + (TreeText(d.value) + (d.after + rest));
    ScanPast(d.before, TreeText(d.value) + (d.after + rest));
    TreeScans(d.value, d.after + rest);
    ScanPast(d.after, rest);
  }

  lemma {:induction false} TreeScans(t: Tree, rest: bytes)
    requires TreeOk(t)
    ensures ScanDocument(TreeText(t) + rest) <==> CleanTree(t) && ScanDocument(rest)
    decreases t, 3
  {
    hide ScanDocument, DocText, PairText, FurtherItems, FurtherPairs, Scalars, TokenText, LiteralText;
    match t
    case NumberTree(n) =>
      TokenRule(n);
      NumberNoQuote(n);
      ScanPast(TokenText(n), rest);
    case StringTree(body) =>
      LiteralScans(body, rest);
    case ArrayTree(blank, items) =>
      ArrayScans(blank, items, rest);
    case ObjectTree(blank, pairs) =>
      ObjectScans(blank, pairs, rest);
    case NullTree => ScanPast([0x6E, 0x75, 0x6C, 0x6C], rest);
    case TrueTree => ScanPast([0x74, 0x72, 0x75, 0x65], rest);
    case FalseTree => ScanPast([0x66, 0x61, 0x6C, 0x73, 0x65], rest);
  }

  lemma {:induction false} ArrayScans(blank: bytes, items: seq<Doc>, rest: bytes)
    requires Blank(blank) && forall i :: 0 <= i < |items| ==> DocOk(items[i])
    ensures ScanDocument(TreeText(ArrayTree(blank, items)) + rest)
            <==> (forall i :: 0 <= i < |items| ==> CleanTree(items[i].value)) && ScanDocument(rest)
    decreases items, 2
  {
    hide ScanDocument, DocText, FurtherItems, CleanTree;
    var t := ArrayTree(blank, items);
    if items == [] {
      BlankNoQuote(blank);
      ScanPast([0x5B] + blank + [0x5D], rest);
      assert TreeText(t) == [0x5B] + blank + [0x5D];
    } else {
      var first, further := DocText(items[0]), FurtherItems(items[1..]);
      ScanPast([0x5B], first + (further + rest));
      assert TreeText(t) + rest == [0x5B] + (first + (further + rest));
      DocScans(items[0], further + rest);
      ItemsScanned(items[1..], rest);
      assert items == [items[0]] + items[1..];
    }
  }

  lemma {:induction false} ObjectScans(blank: bytes, pairs: seq<Named>, rest: bytes)
    requires Blank(blank) && forall i :: 0 <= i < |pairs| ==> PairOk(pairs[i])
    ensures ScanDocument(TreeText(ObjectTree(blank, pairs)) + rest)
            <==> (forall i :: 0 <= i < |pairs| ==> Scalars(pairs[i].name) && CleanTree(pairs[i].value.value)) && ScanDocument(rest)
    decreases pairs, 2
  {
    hide ScanDocument, PairText, FurtherPairs, CleanTree, Scalars;
    var t := ObjectTree(blank, pairs);
    if pairs == [] {
      BlankNoQuote(blank);
      ScanPast([0x7B] + blank + [0x7D], rest);
      assert TreeText(t) == [0x7B] + blank + [0x7D];
    } else {
      var first, further := PairText(pairs[0]), FurtherPairs(pairs[1..]);
      ScanPast([0x7B], first + (further + rest));
      assert TreeText(t) + rest == [0x7B] + (first + (further + rest));
      PairScans(pairs[0], further + rest);
      PairsScanned(pairs[1..], rest);
      assert pairs == [pairs[0]] + pairs[1..];
    }
  }

  lemma {:induction false} ItemsScanned(items: seq<Doc>, rest: bytes)
    requires forall i :: 0 <= i < |items| ==> DocOk(items[i])
    ensures ScanDocument(FurtherItems(items) + rest)
            <==> (forall i :: 0 <= i < |items| ==> CleanTree(items[i].value)) && ScanDocument(rest)
    decreases items, 0
  {
    hide ScanDocument, DocText, CleanTree;
    if items == [] {
      ScanPast([0x5D], rest);
    } else {
      var more := FurtherItems(items[1..]) + rest;
      assert FurtherItems(items) + rest == [0x2C] + (DocText(items[0]) + more);
      ScanPast([0x2C], DocText(items[0]) + more);
      DocScans(items[0], more);
      ItemsScanned(items[1..], rest);
      assert items == [items[0]] + items[1..];
    }
  }

  lemma {:induction false} PairScans(p: Named, rest: bytes)
    requires PairOk(p)
    ensures ScanDocument(PairText(p) + rest) <==> Scalars(p.name) && CleanTree(p.value.value) && ScanDocument(rest)
    decreases p, 1
  {
    hide ScanDocument, DocText, CleanTree, Scalars, StringBody;
    var behind := p.middle + ([0x3A] + (DocText(p.value) + rest));
    BlankNoQuote(p.before);
    BlankNoQuote(p.middle);
    assert PairText(p) + rest == p.before + ([0x22] + p.name + [0x22] + behind) by { PairSplit(p, rest); }
    ScanPast(p.before, [0x22] + p.name + [0x22] + behind);
    LiteralScans(p.name, behind);
    ScanPast(p.middle, [0x3A] + (DocText(p.value) + rest));
    ScanPast([0x3A], DocText(p.value) + rest);
    DocScans(p.value, rest);
  }

  lemma PairSplit(p: Named, rest: bytes)
    ensures PairText(p) + rest
            == p.before + ([0x22] + p.name + [0x22] + (p.middle + ([0x3A] + (DocText(p.value) + rest))))
  {
    hide TreeText;
    PairGrouped(p, rest);
    assert DocText(p.value) + rest == p.value.before + (TreeText(p.value.value) + (p.value.after + rest));
  }

  lemma {:induction false} PairsScanned(pairs: seq<Named>, rest: bytes)
    requires forall i :: 0 <= i < |pairs| ==> PairOk(pairs[i])
    ensures ScanDocument(FurtherPairs(pairs) + rest)
            <==> (forall i :: 0 <= i < |pairs| ==> Scalars(pairs[i].name) && CleanTree(pairs[i].value.value)) && ScanDocument(rest)
    decreases pairs, 0
  {
    hide ScanDocument, PairText, CleanTree, Scalars;
    if pairs == [] {
      ScanPast([0x7D], rest);
    } else {
      var more := FurtherPairs(pairs[1..]) + rest;
      assert FurtherPairs(pairs) + rest == [0x2C] + (PairText(pairs[0]) + more);
      ScanPast([0x2C], PairText(pairs[0]) + more);
      PairScans(pairs[0], more);
      PairsScanned(pairs[1..], rest);
      assert pairs == [pairs[0]] + pairs[1..];
    }
  }

  // ----- the strict parser -----

  /** What the strict parser answers on a text of the grammar depends on its tree and not
      on the white space. */
  lemma TextParses(d: Doc, limit: nat)
    requires DocOk(d)
    ensures var v := Means(d.value);
            var fault := FirstFault(Events(v, 0), limit);
            ParseWithin(DocText(d), limit)
            == if fault.Some? then Err(fault.value) else if CleanTree(d.value) then Ok(v) else Err(NotScalar)
  {
    hide ParseWithin, ScanDocument, CleanTree, DocText, DocOk, Means, Grammatical, FirstFault, Events;
    assert TreeOk(d.value) by { DocParts(d); }
    TextsAreRead(d);
    StrictExactly(DocText(d), limit);
    DocScans(d, []);
    assert DocText(d) + [] == DocText(d);
    EndScans();
  }

  lemma DocParts(d: Doc)
    requires DocOk(d)
    ensures TreeOk(d.value)
  {
  }

  /** ParseJson accepts exactly the texts of the grammar whose tree is fine and nested at
      most 128 deep, and answers what the tree stands for. */
  lemma AcceptedTexts(raw: bytes, v: Value)
    ensures ParseJson(raw) == Ok(v)
            <==> exists d :: DocOk(d) && DocText(d) == raw && Fine(d.value) && Nesting(d.value) <= 128 && Means(d.value) == v
  {
    hide CleanTree, TreeText, Means, FirstFault, Events, Fine, Depth, NoRepeats, Profiled, ParseValue, ReadValue, ScanDocument;
    if ParseJson(raw) == Ok(v) {
      StrictReads(raw, 0, MAX_DEPTH);
      GrammarExactly(raw, v);
      var d :| DocOk(d) && DocText(d) == raw && Means(d.value) == v;
      TextAccepted(d);
    }
    if d :| DocOk(d) && DocText(d) == raw && Fine(d.value) && Nesting(d.value) <= 128 && Means(d.value) == v {
      TextAccepted(d);
    }
  }

  lemma TextAccepted(d: Doc)
    requires DocOk(d)
    ensures TreeOk(d.value)
    ensures Fine(d.value) && Nesting(d.value) <= 128 <==> ParseJson(DocText(d)).Ok?
    ensures ParseJson(DocText(d)).Ok? ==> ParseJson(DocText(d)) == Ok(Means(d.value))
  {
    hide CleanTree, DocText, DocOk, Means, FirstFault, Events, Fine, Depth, NoRepeats, Profiled, ParseWithin;
    DocParts(d);
    var v := Means(d.value);
    TextParses(d, MAX_DEPTH);
    NoFaultMeans(v, MAX_DEPTH);
    FineIs(d.value);
    NestingIsDepth(d.value);
  }

  // ----- white space -----

  /** The tree with all white space between its tokens removed. */
  function Tight(t: Tree): Tree
    decreases t, 1
  {
    match t
    case ArrayTree(_, items) => ArrayTree([], TightItems(items))
    case ObjectTree(_, pairs) => ObjectTree([], TightPairs(pairs))
    case _ => t
  }

  function TightItems(items: seq<Doc>): seq<Doc>
    decreases items, 0
  {
    if items == [] then [] else [Doc([], Tight(items[0].value), [])] + TightItems(items[1..])
  }

  function TightPairs(pairs: seq<Named>): seq<Named>
    decreases pairs, 0
  {
    if pairs == [] then []
    else [Named([], pairs[0].name, [], Doc([], Tight(pairs[0].value.value), []))] + TightPairs(pairs[1..])
  }

  lemma {:induction false} TightMeans(t: Tree)
    requires TreeOk(t)
    ensures TreeOk(Tight(t)) && Means(Tight(t)) == Means(t) && (CleanTree(Tight(t)) <==> CleanTree(t))
    decreases t, 1
  {
    hide Unquote, StringBody, Scalars, NumberToken, LiteralOk;
    match t
    case ArrayTree(_, items) => TightItemsMean(items);
    case ObjectTree(_, pairs) => TightPairsMean(pairs);
    case _ =>
  }

  lemma {:induction false} TightItemsMean(items: seq<Doc>)
    requires forall i :: 0 <= i < |items| ==> DocOk(items[i])
    ensures var tight := TightItems(items);
            && |tight| == |items| && (forall i :: 0 <= i < |tight| ==> DocOk(tight[i]))
            && MeansItems(tight) == MeansItems(items)
            && (forall i :: 0 <= i < |items| ==> (CleanTree(tight[i].value) <==> CleanTree(items[i].value)))
    decreases items, 0
  {
    hide Means, CleanTree, Tight;
    if items != [] {
      var first := Doc([], Tight(items[0].value), []);
      TightMeans(items[0].value);
      TightItemsMean(items[1..]);
      var tight := TightItems(items);
      assert tight[0] == first && tight[1..] == TightItems(items[1..]);
      assert DocOk(first);
    }
  }

  lemma {:induction false} TightPairsMean(pairs: seq<Named>)
    requires forall i :: 0 <= i < |pairs| ==> PairOk(pairs[i])
    ensures var tight := TightPairs(pairs);
            && |tight| == |pairs| && (forall i :: 0 <= i < |tight| ==> PairOk(tight[i]))
            && MeansPairs(tight) == MeansPairs(pairs)
            && (forall i :: 0 <= i < |pairs| ==>
                  tight[i].name == pairs[i].name && (CleanTree(tight[i].value.value) <==> CleanTree(pairs[i].value.value)))
    decreases pairs, 0
  {
    hide Means, CleanTree, Tight, Unquote, StringBody;
    if pairs != [] {
      assert PairOk(pairs[0]) && DocOk(pairs[0].value);
      var first := Named([], pairs[0].name, [], Doc([], Tight(pairs[0].value.value), []));
      TightMeans(pairs[0].value.value);
      TightPairsMean(pairs[1..]);
      var tight := TightPairs(pairs);
      assert tight[0] == first && tight[1..] == TightPairs(pairs[1..]);
      assert PairOk(first);
    }
  }

  /** Two documents with the same tokens, whatever spaces, tabs, line feeds and carriage
      returns stand between them, are parsed, canonicalized and refused alike. */
  lemma SpacingForgotten(d: Doc, e: Doc, limit: nat)
    requires DocOk(d) && DocOk(e) && Tight(d.value) == Tight(e.value)
    ensures ParseWithin(DocText(d), limit) == ParseWithin(DocText(e), limit)
    ensures Canonicalize(DocText(d)) == Canonicalize(DocText(e))
  {
    hide ParseWithin, CleanTree, DocText, DocOk, Means, FirstFault, Events, Tight;
    DocParts(d);
    DocParts(e);
    TightMeans(d.value);
    TightMeans(e.value);
    TextParses(d, limit);
    TextParses(e, limit);
    TextParses(d, MAX_DEPTH);
    TextParses(e, MAX_DEPTH);
  }
}
