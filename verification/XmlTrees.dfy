/** Printing a tree, compact or indented, and reading it back: which tree the parser makes of
    the print, and when it is the one that was printed. */
module XmlTrees {
  import opened Basics
  import opened XmlStrings
  import opened XmlParser
  import opened XmlRoundTrip

  // ----- printing in either mode -----

  /** What the printer remembers between nodes: the depth of the element whose text is open, or
      -1, and whether no tag has been written yet. */
  datatype Pen = Pen(textDepth: int, first: bool)

  const START: Pen := Pen(-1, true)

  /** Four spaces for each level. */
  function Indent(depth: int): string
    decreases depth
  {
    if depth <= 0 then "" else Indent(depth - 1) + "    "
  }

  /** A new line unless a text is open around the node, then the indentation. */
  function Gap(compact: bool, pen: Pen, depth: int): string {
    if compact then "" else (if pen.textDepth < 0 && !pen.first then "\n" else "") + Indent(depth)
  }

  /** What stands before a node. Elements are indented in any case, other markup only on a line
      of its own, and text not at all. */
  function GapBefore(compact: bool, n: Node, depth: int, pen: Pen): string {
    if n.Element? || (!n.Text? && pen.textDepth < 0 && !pen.first) then Gap(compact, pen, depth) else ""
  }

  function CloseGap(compact: bool, pen: Pen, depth: int): string {
    if pen.textDepth < 0 && !compact then "\n" + Indent(depth) else ""
  }

  /** A line ends after an element of the document itself. */
  function Tail(compact: bool, n: Node, depth: int): string {
    if n.Element? && depth == 0 && !compact then "\n" else ""
  }

  function After(n: Node, depth: int, pen: Pen): Pen
    decreases n, 0
  {
    match n
    case Element(_, _, children) =>
      var inner := AfterAll(children, depth + 1, Pen(pen.textDepth, false));
      Pen(if inner.textDepth == depth then -1 else inner.textDepth, false)
    case Text(_, _) => Pen(depth - 1, pen.first)
    case _ => Pen(pen.textDepth, false)
  }

  function AfterAll(nodes: seq<Node>, depth: int, pen: Pen): Pen
    decreases nodes, 1
  {
    if nodes == [] then pen else AfterAll(nodes[1..], depth, After(nodes[0], depth, pen))
  }

  /** A node without the gap before it. */
  function Body(compact: bool, n: Node, depth: int, pen: Pen): string
    decreases n, 0
  {
    if n.Element? && n.children != [] then
      var inner := Pen(pen.textDepth, false);
      OpenTag(n.name, n.attrs) + ">" + PrintList(compact, n.children, depth + 1, inner)
      + (CloseGap(compact, AfterAll(n.children, depth + 1, inner), depth) + ("</" + n.name + ">"))
    else PrintNode(n)
  }

  function PrintList(compact: bool, nodes: seq<Node>, depth: int, pen: Pen): string
    decreases nodes, 1
  {
    if nodes == [] then ""
    else
      var n := nodes[0];
      GapBefore(compact, n, depth, pen) + Body(compact, n, depth, pen) + Tail(compact, n, depth)
      + PrintList(compact, nodes[1..], depth, After(n, depth, pen))
  }

  // ----- compact prints have no gaps -----

  lemma {:induction false} CompactBody(n: Node, depth: int, pen: Pen)
    ensures Body(true, n, depth, pen) == PrintNode(n)
    decreases n, 0
  {
    hide OpenTag;
    if n.Element? && n.children != [] {
      CompactList(n.children, depth + 1, Pen(pen.textDepth, false));
    }
  }

  lemma {:induction false} CompactList(nodes: seq<Node>, depth: int, pen: Pen)
    ensures PrintList(true, nodes, depth, pen) == PrintNodes(nodes)
    decreases nodes, 1
  {
    hide Body, PrintNode, After;
    if nodes != [] {
      CompactBody(nodes[0], depth, pen);
      CompactList(nodes[1..], depth, After(nodes[0], depth, pen));
    }
  }

  // ----- the tree that is read -----

  /** What stands between a node and the next one. */
  function Between(compact: bool, nodes: seq<Node>, depth: int, pen: Pen): string
    requires nodes != []
  {
    Tail(compact, nodes[0], depth)
    + if |nodes| == 1 then "" else GapBefore(compact, nodes[1], depth, After(nodes[0], depth, pen))
  }

  /** A text takes the white space on both its sides; before is what stands before the list. */
  function Spaced(compact: bool, before: string, nodes: seq<Node>, depth: int, pen: Pen): seq<Node>
    decreases nodes, 1
  {
    if nodes == [] then []
    else
      var n, between := nodes[0], Between(compact, nodes, depth, pen);
      [if IsPlain(n) then Text(before + n.value + between, false) else SpacedNode(compact, n, depth, pen)]
      + Spaced(compact, if IsPlain(n) then "" else between, nodes[1..], depth, After(n, depth, pen))
  }

  function SpacedNode(compact: bool, n: Node, depth: int, pen: Pen): Node
    decreases n, 0
  {
    if n.Element? && n.children != [] then
      var inner := Pen(pen.textDepth, false);
      Element(n.name, n.attrs,
              Spaced(compact, GapBefore(compact, n.children[0], depth + 1, inner), n.children, depth + 1, inner))
    else n
  }

  // ----- gaps -----

  ghost predicate IsGap(w: string) {
    forall i | 0 <= i < |w| :: w[i] == ' ' || w[i] == '\n'
  }

  lemma {:induction false} IndentIsGap(depth: int)
    ensures IsGap(Indent(depth))
    decreases depth
  {
    if depth > 0 {
      IndentIsGap(depth - 1);
    }
  }

  lemma GapsAreGaps(compact: bool, n: Node, depth: int, pen: Pen)
    ensures IsGap(GapBefore(compact, n, depth, pen)) && IsGap(Tail(compact, n, depth))
    ensures IsGap(CloseGap(compact, pen, depth))
  {
    hide Indent;
    IndentIsGap(depth);
  }

  lemma BetweenIsGap(compact: bool, nodes: seq<Node>, depth: int, pen: Pen)
    requires nodes != []
    ensures IsGap(Between(compact, nodes, depth, pen))
  {
    hide GapBefore, Tail, After;
    GapsAreGaps(compact, nodes[0], depth, pen);
    if |nodes| > 1 {
      GapsAreGaps(compact, nodes[1], depth, After(nodes[0], depth, pen));
    }
  }

  lemma EscapeMore(v: string, c: char)
    ensures Escape(v + [c], true) == Escape(v, true) + EscapeChar(c, true)
  {
    hide EscapeChar;
    assert (v + [c])[..|v|] == v;
  }

  lemma SpaceIsPlain(c: char)
    requires c == ' ' || c == '\n'
    ensures EscapeChar(c, true) == [c]
  {
  }

  /** A gap is printed as it is, so it reads as part of the text beside it. */
  lemma {:induction false} EscapeGap(v: string, w: string)
    requires IsGap(w)
    ensures Escape(v + w, true) == Escape(v, true) + w
    decreases |w|
  {
    hide Escape, EscapeChar;
    if w == [] {
      assert v + w == v;
    } else {
      var front, c := w[..|w| - 1], w[|w| - 1];
      EscapeGap(v, front);
      EscapeMore(v + front, c);
      SpaceIsPlain(c);
      Associate(v, front, [c], w);
      Associate(Escape(v, true), front, [c], w);
    }
  }

  lemma {:induction false} GapEscape(w: string, v: string)
    requires IsGap(w)
    ensures Escape(w + v, true) == w + Escape(v, true)
    decreases |v|
  {
    hide EscapeChar, IsGap;
    if v == [] {
      assert w + v == [] + w && w + [] == w;
      EscapeGap([], w);
    } else {
      var front, c := v[..|v| - 1], v[|v| - 1];
      GapEscape(w, front);
      hide Escape;
      EscapeMore(w + front, c);
      EscapeMore(front, c);
      Associate(w, front, [c], v);
      Associate(w, Escape(front, true), EscapeChar(c, true), Escape(v, true));
    }
  }

  lemma Associate(a: string, b: string, c: string, bc: string)
    requires bc == b + c
    ensures (a + b) + c == a + bc
  {
  }

  lemma {:induction false} SkipGap(s: string, p: nat, w: string)
    requires StartsWith(s, p, w) && IsGap(w)
    ensures p + |w| <= |s| && SkipWhite(s, p) == SkipWhite(s, p + |w|)
    decreases |w|
  {
    if w != [] {
      assert w == [w[0]] + w[1..];
      StartsSplit(s, p, [w[0]], w[1..]);
      StartsAt(s, p, w, 0);
      SkipGap(s, p + 1, w[1..]);
    }
  }

  /** White space before a bracket changes nothing. */
  lemma GapIsSkipped(s: string, p: nat, w: string, depth: nat, before: seq<Node>)
    requires StartsWith(s, p, w) && IsGap(w) && At(s, p + |w|) == '<'
    ensures p + |w| <= |s| && ParseNodes(s, p, depth, before) == ParseNodes(s, p + |w|, depth, before)
  {
    hide StartsWith, SkipWhite, ParseOne, IsGap;
    SkipGap(s, p, w);
    BracketStops(s, p + |w|);
    SameStart(s, p, p + |w|, depth);
  }

  lemma SameStart(s: string, p: nat, q: nat, depth: nat)
    requires p <= |s| && q <= |s| && SkipWhite(s, p) == SkipWhite(s, q) == q && At(s, q) == '<'
    ensures ParseOne(s, p, depth) == ParseOne(s, q, depth)
  {
    hide StartsWith, SkipWhite, ParseUntil, ParseElement, ParseText;
  }

  /** White space at the end of the document neither. */
  lemma GapEnds(s: string, p: nat, w: string, nodes: seq<Node>)
    requires StartsWith(s, p, w) && IsGap(w) && p + |w| == |s|
    ensures ParseNodes(s, p, 1, nodes) == Ended(nodes)
  {
    SkipGap(s, p, w);
  }

  // ----- text with the gaps beside it -----

  lemma GapIsWhite(w: string)
    requires IsGap(w)
    ensures Blank(w) && CR !in w && NUL !in w && '<' !in w
  {
    forall c | c in w ensures c == ' ' || c == '\n' {
      var i :| 0 <= i < |w| && w[i] == c;
    }
  }

  lemma SpacedTextIsLegal(w: string, v: string, after: string)
    requires IsGap(w) && IsGap(after) && Clean(v) && !Blank(v)
    ensures Clean(w + v + after) && !Blank(w + v + after)
    ensures Escape(w + v + after, true) == w + Escape(v, true) + after
  {
    hide Escape;
    GapIsWhite(w);
    GapIsWhite(after);
    var i :| 0 <= i < |v| && !IsWhite(v[i]);
    assert (w + v + after)[|w| + i] == v[i];
    EscapeGap(w + v, after);
    GapEscape(w, v);
  }

  lemma SpacedTextIsParsed(s: string, p: nat, w: string, v: string, after: string, depth: nat)
    requires IsGap(w) && IsGap(after) && Clean(v) && !Blank(v)
    requires StartsWith(s, p, w + Escape(v, true) + after + "<")
    requires At(s, p + |w + Escape(v, true) + after| + 1) != NUL
    ensures ParseOne(s, p, depth) == Got(Text(w + v + after, false), p + |w + Escape(v, true) + after|)
  {
    hide StartsWith, Escape, Clean, Blank, IsGap, ParseOne;
    SpacedTextIsLegal(w, v, after);
    TextIsParsed(s, p, w + v + after, depth);
  }

  // ----- a list without the gap before it and the line end after it -----

  ghost function Trunk(compact: bool, nodes: seq<Node>, depth: int, pen: Pen): string
    requires nodes != []
    decreases |nodes|
  {
    Body(compact, nodes[0], depth, pen)
    + if |nodes| == 1 then ""
      else Between(compact, nodes, depth, pen) + Trunk(compact, nodes[1..], depth, After(nodes[0], depth, pen))
  }

  lemma {:induction false} TrunkIsPrint(compact: bool, nodes: seq<Node>, depth: int, pen: Pen)
    requires nodes != []
    ensures PrintList(compact, nodes, depth, pen)
         == GapBefore(compact, nodes[0], depth, pen) + Trunk(compact, nodes, depth, pen)
            + Tail(compact, nodes[|nodes| - 1], depth)
    decreases |nodes|
  {
    hide Body, GapBefore, Tail, After;
    var rest, pen' := nodes[1..], After(nodes[0], depth, pen);
    if |nodes| == 1 {
      assert PrintList(compact, rest, depth, pen') == "";
    } else {
      TrunkIsPrint(compact, rest, depth, pen');
      assert rest[|rest| - 1] == nodes[|nodes| - 1] && rest[0] == nodes[1];
    }
  }

  /** A text that ends a list is open when its element is closed. */
  lemma {:induction false} LastTextIsOpen(nodes: seq<Node>, depth: int, pen: Pen)
    requires nodes != [] && IsPlain(nodes[|nodes| - 1])
    ensures AfterAll(nodes, depth, pen).textDepth == depth - 1
    decreases |nodes|
  {
    var rest := nodes[1..];
    if rest != [] {
      assert rest[|rest| - 1] == nodes[|nodes| - 1];
      LastTextIsOpen(rest, depth, After(nodes[0], depth, pen));
    }
  }

  // ----- what is read of a node -----

  /** A node that may stand in a list, which at the top may begin with declarations. */
  ghost predicate Legal(n: Node) {
    if n.Declaration? then Ends(n.value, "?>") else Printable(n)
  }

  lemma BodyStarts(s: string, p: nat, n: Node, compact: bool, depth: int, pen: Pen)
    requires !IsPlain(n) && Legal(n) && StartsWith(s, p, Body(compact, n, depth, pen))
    ensures p + 1 < |s| && s[p] == '<' && s[p + 1] != NUL
  {
    hide PrintList, PrintNodes, PrintAttrs, StartsWith, Ends, CloseGap, AfterAll;
    if n.Element? && n.children != [] {
      var t := Body(compact, n, depth, pen);
      assert t[0] == '<' && t[1] == n.name[0];
      StartsAt(s, p, t, 0);
      StartsAt(s, p, t, 1);
    } else {
      NodeStarts(s, p, n);
    }
  }

  lemma LeafIsParsed(s: string, p: nat, n: Node, depth: nat)
    requires Legal(n) && !IsPlain(n) && StartsWith(s, p, PrintNode(n)) && (n.Element? ==> n.children == [])
    ensures ParseOne(s, p, depth) == Got(n, p + |PrintNode(n)|)
  {
    hide ParseOne, ParseNodes, StartsWith, PrintNodes, Escape, OpenTag, Ends;
    match n
    case Text(value, _) => CDataIsParsed(s, p, value, depth);
    case Comment(value) => CommentIsParsed(s, p, value, depth);
    case Declaration(value) => DeclarationIsParsed(s, p, value, depth);
    case Unknown(value) => UnknownIsParsed(s, p, value, depth);
    case Element(name, attrs, _) => EmptyElementIsParsed(s, p, name, attrs, depth);
  }

  // ----- what is read of a list -----

  ghost predicate MayDeclare(before: seq<Node>) {
    before == [] || (before[0].Declaration? && before[|before| - 1].Declaration?)
  }

  /** The list may be read after these nodes, at the top of a document or inside an element. */
  ghost predicate Listed(top: bool, nodes: seq<Node>, before: seq<Node>) {
    if top then PrintableLevel(nodes) && (nodes != [] && nodes[0].Declaration? ==> MayDeclare(before))
    else PrintableList(nodes)
  }

  lemma NotPrintable(nodes: seq<Node>)
    requires nodes != [] && nodes[0].Declaration?
    ensures !PrintableList(nodes)
  {
  }

  lemma ListedStep(top: bool, nodes: seq<Node>, before: seq<Node>, read: Node)
    requires nodes != [] && Listed(top, nodes, before) && read.Declaration? == nodes[0].Declaration?
    ensures Legal(nodes[0]) && Listed(top, nodes[1..], before + [read])
    ensures nodes[0].Declaration? ==> top && MayDeclare(before)
    ensures |nodes| > 1 && IsPlain(nodes[0]) ==> !IsPlain(nodes[1])
  {
    hide Ends;
    var rest := nodes[1..];
    if nodes[0].Declaration? {
      NotPrintable(nodes);
      assert MayDeclare(before + [read]);
    } else if rest != [] {
      FirstIsPrintable(rest);
      NotDeclaration(rest[0]);
    }
  }

  lemma LevelStep(s: string, p: nat, depth: nat, before: seq<Node>, n: Node, next: nat)
    requires p <= |s| && depth + 1 < MAX_DEPTH && ParseOne(s, p, depth + 1) == Got(n, next)
    requires n.Declaration? ==> depth == 0 && MayDeclare(before)
    ensures ParseNodes(s, p, depth + 1, before) == ParseNodes(s, next, depth + 1, before + [n])
  {
    hide ParseOne;
  }

  lemma LevelFails(s: string, p: nat, depth: nat, before: seq<Node>)
    requires p <= |s| && ParseOne(s, p, depth) == Bad
    ensures ParseNodes(s, p, depth, before) == Failed
  {
    hide ParseOne;
  }

  /** Below the limit the nodes are read, else reading fails. */
  ghost function ReadTo(s: string, next: nat, depth: nat, nodes: seq<Node>, read: seq<Node>): Nodes
    requires next <= |s|
  {
    if depth + 1 + NestingOf(nodes) < MAX_DEPTH then ParseNodes(s, next, depth + 1, read) else Failed
  }

  lemma NestingStep(nodes: seq<Node>, depth: nat)
    requires nodes != []
    ensures depth + NestingOf(nodes) < MAX_DEPTH
       <==> depth + Nesting(nodes[0]) < MAX_DEPTH && depth + NestingOf(nodes[1..]) < MAX_DEPTH
  {
    hide Nesting;
  }

  /** After a text with its gap comes a bracket: of the next node or of what follows the list. */
  lemma AfterText(s: string, p: nat, compact: bool, nodes: seq<Node>, depth: int, pen: Pen)
    requires nodes != [] && !IsPlain(nodes[0]) && Legal(nodes[0])
    requires StartsWith(s, p, Trunk(compact, nodes, depth, pen))
    ensures StartsWith(s, p, "<") && At(s, p + 1) != NUL && At(s, p) == '<'
  {
    hide Body, Between, Legal, StartsWith;
    var body := Body(compact, nodes[0], depth, pen);
    var t := Trunk(compact, nodes, depth, pen);
    assert t == body + t[|body|..];
    StartsSplit(s, p, body, t[|body|..]);
    BodyStarts(s, p, nodes[0], compact, depth, pen);
    StartsOne(s, p, '<');
  }

  lemma TooDeep(s: string, p: nat, depth: nat, nodes: seq<Node>, before: seq<Node>, next: nat, read: seq<Node>)
    requires p <= |s| && next <= |s| && depth + 1 >= MAX_DEPTH
    ensures ParseNodes(s, p, depth + 1, before) == ReadTo(s, next, depth, nodes, read)
  {
  }

  lemma SameKind(compact: bool, n: Node, depth: int, pen: Pen)
    ensures SpacedNode(compact, n, depth, pen).Declaration? == n.Declaration?
  {
    hide Spaced, GapBefore;
  }

  /** What follows a list that ends with text. */
  ghost predicate TextEnds(s: string, p: nat, nodes: seq<Node>)
    requires nodes != []
  {
    IsPlain(nodes[|nodes| - 1]) ==> StartsWith(s, p, "<") && At(s, p + 1) != NUL
  }

  lemma TextEndsRest(s: string, p: nat, nodes: seq<Node>)
    requires |nodes| > 1 && TextEnds(s, p, nodes)
    ensures TextEnds(s, p, nodes[1..])
  {
    assert nodes[1..][|nodes| - 2] == nodes[|nodes| - 1];
  }

  /** The parts of a list's print. */
  lemma TrunkParts(s: string, p: nat, w: string, compact: bool, nodes: seq<Node>, depth: int, pen: Pen)
    requires nodes != [] && StartsWith(s, p, w + Trunk(compact, nodes, depth, pen))
    ensures var body := Body(compact, nodes[0], depth, pen); var q := p + |w|;
      && p + |w + Trunk(compact, nodes, depth, pen)| <= |s|
      && StartsWith(s, p, w) && StartsWith(s, q, body)
      && (|nodes| == 1 ==> q + |body| == p + |w + Trunk(compact, nodes, depth, pen)|)
      && (|nodes| > 1 ==>
            var more := Between(compact, nodes, depth, pen)
                        + Trunk(compact, nodes[1..], depth, After(nodes[0], depth, pen));
            StartsWith(s, q + |body|, more) && q + |body + more| == p + |w + Trunk(compact, nodes, depth, pen)|)
  {
    hide StartsWith, Body, Between, After;
    var body := Body(compact, nodes[0], depth, pen);
    var t := Trunk(compact, nodes, depth, pen);
    StartsSlice(s, p, w + t);
    StartsSplit(s, p, w, t);
    assert t == body + t[|body|..];
    StartsSplit(s, p + |w|, body, t[|body|..]);
  }

  lemma {:induction false} NodeThenList(
      s: string, p: nat, w: string, compact: bool, nodes: seq<Node>, depth: nat, pen: Pen, before: seq<Node>)
    requires nodes != [] && Listed(depth == 0, nodes, before) && IsGap(w)
    requires !IsPlain(nodes[0]) && depth + 1 < MAX_DEPTH
    requires StartsWith(s, p, w + Trunk(compact, nodes, depth, pen))
    requires TextEnds(s, p + |w + Trunk(compact, nodes, depth, pen)|, nodes)
    ensures p + |w + Trunk(compact, nodes, depth, pen)| <= |s|
    ensures ParseNodes(s, p, depth + 1, before)
         == ReadTo(s, p + |w + Trunk(compact, nodes, depth, pen)|, depth, nodes,
                   before + Spaced(compact, w, nodes, depth, pen))
    decreases nodes, 1
  {
    hide StartsWith, Body, Between, Legal, Listed, ParseNodes, ParseOne, SpacedNode, Nesting, NestingOf;
    hide IsGap, TextEnds, Trunk, After, IsPlain;
    var n, rest, pen' := nodes[0], nodes[1..], After(nodes[0], depth, pen);
    var body, q, x := Body(compact, n, depth, pen), p + |w|, SpacedNode(compact, n, depth, pen);
    TrunkParts(s, p, w, compact, nodes, depth, pen);
    SameKind(compact, n, depth, pen);
    ListedStep(depth == 0, nodes, before, x);
    NestingStep(nodes, depth + 1);
    BodyStarts(s, q, n, compact, depth, pen);
    GapIsSkipped(s, p, w, depth + 1, before);
    BodyIsParsed(s, q, n, compact, depth, pen);
    if depth + 1 + Nesting(n) >= MAX_DEPTH {
      LevelFails(s, q, depth + 1, before);
    } else {
      LevelStep(s, q, depth, before, x, q + |body|);
      var between := Between(compact, nodes, depth, pen);
      assert Spaced(compact, w, nodes, depth, pen) == [x] + Spaced(compact, between, rest, depth, pen');
      if |nodes| == 1 {
        NoNesting();
        assert before + ([x] + []) == before + [x];
      } else {
        BetweenIsGap(compact, nodes, depth, pen);
        TextEndsRest(s, p + |w + Trunk(compact, nodes, depth, pen)|, nodes);
        ListIsParsed(s, q + |body|, between, compact, rest, depth, pen', before + [x]);
        var more := Spaced(compact, between, rest, depth, pen');
        assert before + [x] + more == before + ([x] + more);
      }
    }
  }

  lemma NoNesting()
    ensures NestingOf([]) == 0
  {
  }

  /** Reading a printed list gives its nodes, each text with the white space beside it. */
  lemma {:induction false} ListIsParsed(
      s: string, p: nat, w: string, compact: bool, nodes: seq<Node>, depth: nat, pen: Pen, before: seq<Node>)
    requires nodes != [] && Listed(depth == 0, nodes, before) && IsGap(w)
    requires StartsWith(s, p, w + Trunk(compact, nodes, depth, pen))
    requires TextEnds(s, p + |w + Trunk(compact, nodes, depth, pen)|, nodes)
    ensures p + |w + Trunk(compact, nodes, depth, pen)| <= |s|
    ensures ParseNodes(s, p, depth + 1, before)
         == ReadTo(s, p + |w + Trunk(compact, nodes, depth, pen)|, depth, nodes,
                   before + Spaced(compact, w, nodes, depth, pen))
    decreases nodes, 2
  {
    hide *;
    StartsSlice(s, p, w + Trunk(compact, nodes, depth, pen));
    if depth + 1 >= MAX_DEPTH {
      TooDeep(s, p, depth, nodes, before, p + |w + Trunk(compact, nodes, depth, pen)|,
              before + Spaced(compact, w, nodes, depth, pen));
    } else if IsPlain(nodes[0]) {
      TextThenList(s, p, w, compact, nodes, depth, pen, before);
    } else {
      NodeThenList(s, p, w, compact, nodes, depth, pen, before);
    }
  }

  lemma {:induction false} TextThenList(
      s: string, p: nat, w: string, compact: bool, nodes: seq<Node>, depth: nat, pen: Pen, before: seq<Node>)
    requires nodes != [] && Listed(depth == 0, nodes, before) && IsGap(w)
    requires IsPlain(nodes[0]) && depth + 1 < MAX_DEPTH
    requires StartsWith(s, p, w + Trunk(compact, nodes, depth, pen))
    requires TextEnds(s, p + |w + Trunk(compact, nodes, depth, pen)|, nodes)
    ensures p + |w + Trunk(compact, nodes, depth, pen)| <= |s|
    ensures ParseNodes(s, p, depth + 1, before)
         == ReadTo(s, p + |w + Trunk(compact, nodes, depth, pen)|, depth, nodes,
                   before + Spaced(compact, w, nodes, depth, pen))
    decreases nodes, 1
  {
    hide StartsWith, Between, Legal, Listed, ParseNodes, ParseOne, Nesting, NestingOf, IsGap, Escape;
    hide Trunk, After, Clean, Blank;
    var n, rest, pen' := nodes[0], nodes[1..], After(nodes[0], depth, pen);
    var e, between := Escape(n.value, true), Between(compact, nodes, depth, pen);
    var x, next := Text(w + n.value + between, false), p + |w + e + between|;
    TrunkParts(s, p, w, compact, nodes, depth, pen);
    ListedStep(depth == 0, nodes, before, x);
    NestingStep(nodes, depth + 1);
    BetweenIsGap(compact, nodes, depth, pen);
    if |nodes| > 1 {
      ListedStep(depth == 0, rest, before + [x], rest[0]);
    }
    TextIsFollowed(s, p, w, compact, nodes, depth, pen);
    TextIsLegal(n);
    SpacedTextIsParsed(s, p, w, n.value, between, depth + 1);
    LevelStep(s, p, depth, before, x, next);
    assert Spaced(compact, w, nodes, depth, pen) == [x] + Spaced(compact, "", rest, depth, pen');
    TextHasNoNesting(n);
    if |nodes| == 1 {
      NoNesting();
      TextHasNoTail(compact, nodes, depth, pen);
      assert before + ([x] + []) == before + [x];
    } else {
      TextEndsRest(s, p + |w + Trunk(compact, nodes, depth, pen)|, nodes);
      StartsSplit(s, p + |w + e|, between, Trunk(compact, rest, depth, pen'));
      assert "" + Trunk(compact, rest, depth, pen') == Trunk(compact, rest, depth, pen');
      NoGap();
      ListIsParsed(s, next, "", compact, rest, depth, pen', before + [x]);
      var more := Spaced(compact, "", rest, depth, pen');
      assert before + [x] + more == before + ([x] + more);
    }
  }

  lemma NoGap()
    ensures IsGap("")
  {
  }

  lemma TextIsLegal(n: Node)
    requires IsPlain(n) && Legal(n)
    ensures Clean(n.value) && !Blank(n.value)
  {
  }

  lemma TextHasNoNesting(n: Node)
    requires IsPlain(n)
    ensures Nesting(n) == 0
  {
  }

  lemma TextIsFollowed(s: string, p: nat, w: string, compact: bool, nodes: seq<Node>, depth: nat, pen: Pen)
    requires nodes != [] && IsPlain(nodes[0]) && Legal(nodes[0])
    requires |nodes| > 1 ==> !IsPlain(nodes[1]) && Legal(nodes[1])
    requires StartsWith(s, p, w + Trunk(compact, nodes, depth, pen))
    requires TextEnds(s, p + |w + Trunk(compact, nodes, depth, pen)|, nodes)
    ensures var t := w + Escape(nodes[0].value, true) + Between(compact, nodes, depth, pen);
      StartsWith(s, p, t + "<") && At(s, p + |t| + 1) != NUL
  {
    hide StartsWith, Legal, Escape, Trunk, After, Between;
    var e, between := Escape(nodes[0].value, true), Between(compact, nodes, depth, pen);
    TrunkParts(s, p, w, compact, nodes, depth, pen);
    StartsSplit(s, p, w + e, between + "<");
    StartsSplit(s, p, w, e);
    StartsSplit(s, p + |w + e|, between, "<");
    assert w + e + between + "<" == (w + e) + (between + "<");
    if |nodes| == 1 {
      TextHasNoTail(compact, nodes, depth, pen);
      StartsNothing(s, p + |w + e|);
    } else {
      var pen' := After(nodes[0], depth, pen);
      StartsSplit(s, p + |w + e|, between, Trunk(compact, nodes[1..], depth, pen'));
      AfterText(s, p + |w + e + between|, compact, nodes[1..], depth, pen');
    }
  }

  lemma StartsNothing(s: string, p: nat)
    requires p <= |s|
    ensures StartsWith(s, p, "")
  {
  }

  lemma TextHasNoTail(compact: bool, nodes: seq<Node>, depth: int, pen: Pen)
    requires |nodes| == 1 && IsPlain(nodes[0])
    ensures Between(compact, nodes, depth, pen) == ""
  {
  }

  // ----- what is read of an element -----

  /** Where the parts of an element with content stand. */
  lemma BodyParts(s: string, q: nat, n: Node, compact: bool, depth: nat, pen: Pen)
    requires n.Element? && n.children != [] && StartsWith(s, q, Body(compact, n, depth, pen))
    ensures var inner := Pen(pen.textDepth, false); var from := q + |OpenTag(n.name, n.attrs) + ">"|;
      var list := GapBefore(compact, n.children[0], depth + 1, inner) + Trunk(compact, n.children, depth + 1, inner);
      var gap := CloseGap(compact, AfterAll(n.children, depth + 1, inner), depth);
      && StartsWith(s, q, OpenTag(n.name, n.attrs) + ">") && StartsWith(s, from, list)
      && StartsWith(s, from + |list|, gap) && StartsWith(s, from + |list| + |gap|, "</" + n.name + ">")
      && q + |Body(compact, n, depth, pen)| == from + |list| + |gap| + |n.name| + 3
  {
    var inner := Pen(pen.textDepth, false);
    var open, gap := OpenTag(n.name, n.attrs) + ">", CloseGap(compact, AfterAll(n.children, depth + 1, inner), depth);
    var list, close := PrintList(compact, n.children, depth + 1, inner), "</" + n.name + ">";
    BodyIs(n, compact, depth, pen);
    ListHasNoTail(compact, n.children, depth, inner);
    hide StartsWith, Body, PrintList, OpenTag, GapBefore, CloseGap, AfterAll, Trunk;
    StartsSplit(s, q, open, list + (gap + close));
    StartsSplit(s, q + |open|, list, gap + close);
    StartsSplit(s, q + |open| + |list|, gap, close);
  }

  lemma BodyIs(n: Node, compact: bool, depth: nat, pen: Pen)
    requires n.Element? && n.children != []
    ensures var inner := Pen(pen.textDepth, false);
      Body(compact, n, depth, pen)
      == OpenTag(n.name, n.attrs) + ">"
         + (PrintList(compact, n.children, depth + 1, inner)
            + (CloseGap(compact, AfterAll(n.children, depth + 1, inner), depth) + ("</" + n.name + ">")))
  {
    hide PrintList, OpenTag, CloseGap, AfterAll;
  }

  lemma ListHasNoTail(compact: bool, nodes: seq<Node>, depth: nat, pen: Pen)
    requires nodes != []
    ensures PrintList(compact, nodes, depth + 1, pen)
         == GapBefore(compact, nodes[0], depth + 1, pen) + Trunk(compact, nodes, depth + 1, pen)
  {
    TrunkIsPrint(compact, nodes, depth + 1, pen);
    InnerHasNoTail(compact, nodes[|nodes| - 1], depth);
    hide PrintList, GapBefore, Trunk, Tail;
  }

  lemma InnerHasNoTail(compact: bool, n: Node, depth: nat)
    ensures Tail(compact, n, depth + 1) == ""
  {
  }

  lemma ElementFails(s: string, p: nat, depth: nat, n: Node, from: nat)
    requires p + 1 < |s| && s[p] == '<' && s[p + 1] != '!' && s[p + 1] != '?' && n.Element?
    requires ParseTag(s, p + 1) == Tag(n.name, n.attrs, Open, from)
    requires ParseNodes(s, from, depth + 1, []) == Failed
    ensures ParseOne(s, p, depth) == Bad
  {
    hide ParseTag, ParseOne, ParseNodes;
    BracketIsElement(s, p, depth);
  }

  /** A list does not start with the terminator. */
  lemma ListIsNotNul(s: string, p: nat, w: string, compact: bool, nodes: seq<Node>, depth: int, pen: Pen)
    requires nodes != [] && Printable(nodes[0]) && IsGap(w) && StartsWith(s, p, w + Trunk(compact, nodes, depth, pen))
    ensures At(s, p) != NUL
  {
    hide Body, Trunk, StartsWith;
    var n := nodes[0];
    TrunkParts(s, p, w, compact, nodes, depth, pen);
    if w != [] {
      StartsAt(s, p, w, 0);
    } else if IsPlain(n) {
      PlainBody(compact, n, depth, pen);
      SkipStaysInText(s, p, n.value);
      var q := SkipWhite(s, p);
      assert p < q ==> IsWhite(s[p]);
    } else {
      BodyStarts(s, p, n, compact, depth, pen);
    }
  }

  lemma PlainBody(compact: bool, n: Node, depth: int, pen: Pen)
    requires IsPlain(n)
    ensures Body(compact, n, depth, pen) == Escape(n.value, true)
  {
  }

  /** The end tag follows a last text at once. */
  lemma CloseFollows(s: string, p: nat, compact: bool, nodes: seq<Node>, depth: nat, pen: Pen, name: string)
    requires nodes != []
    requires StartsWith(s, p + |CloseGap(compact, AfterAll(nodes, depth + 1, pen), depth)|, "</" + name + ">")
    ensures TextEnds(s, p, nodes)
  {
    hide StartsWith, AfterAll;
    if IsPlain(nodes[|nodes| - 1]) {
      LastTextIsOpen(nodes, depth + 1, pen);
      StartsAt(s, p, "</" + name + ">", 0);
      StartsAt(s, p, "</" + name + ">", 1);
      StartsOne(s, p, '<');
    }
  }

  lemma {:induction false} ElementBody(s: string, q: nat, n: Node, compact: bool, depth: nat, pen: Pen)
    requires n.Element? && n.children != [] && Printable(n) && depth + 1 < MAX_DEPTH
    requires StartsWith(s, q, Body(compact, n, depth, pen))
    ensures ParseOne(s, q, depth + 1)
         == if depth + 1 + Nesting(n) < MAX_DEPTH
            then Got(SpacedNode(compact, n, depth, pen), q + |Body(compact, n, depth, pen)|) else Bad
    decreases n.children, 3
  {
    hide StartsWith, ParseTag, ParseOne, ParseNodes, LegalName, LegalAttrs, OpenTag, Body, Spaced, Trunk, AfterAll;
    hide GapBefore, CloseGap, IsGap, NestingOf, TextEnds, PrintableList;
    var inner, from := Pen(pen.textDepth, false), q + |OpenTag(n.name, n.attrs) + ">"|;
    var w := GapBefore(compact, n.children[0], depth + 1, inner);
    var gap := CloseGap(compact, AfterAll(n.children, depth + 1, inner), depth);
    var to := from + |w + Trunk(compact, n.children, depth + 1, inner)|;
    var x, read := SpacedNode(compact, n, depth, pen), Spaced(compact, w, n.children, depth + 1, inner);
    BodyParts(s, q, n, compact, depth, pen);
    TagIsParsed(s, q, n.name, n.attrs, ">");
    CloseIsParsed(s, to + |gap|, n.name, depth + 2);
    GapsAreGaps(compact, n.children[0], depth + 1, inner);
    GapsAreGaps(compact, n, depth, AfterAll(n.children, depth + 1, inner));
    CloseFollows(s, to, compact, n.children, depth, inner, n.name);
    FirstIsPrintable(n.children);
    ListIsNotNul(s, from, w, compact, n.children, depth + 1, inner);
    ListIsParsed(s, from, w, compact, n.children, depth + 1, inner, []);
    assert [] + read == read;
    if depth + 1 + Nesting(n) < MAX_DEPTH {
      GapIsSkipped(s, to, gap, depth + 2, read);
      LevelCloses(s, to + |gap|, depth + 2, read, n.name, to + |gap| + |n.name| + 3);
      ElementAround(s, q, depth + 1, x, from, to + |gap| + |n.name| + 3);
    } else {
      ElementFails(s, q, depth + 1, n, from);
    }
  }

  lemma FirstIsPrintable(nodes: seq<Node>)
    requires nodes != [] && PrintableList(nodes)
    ensures Printable(nodes[0])
  {
  }

  lemma {:induction false} BodyIsParsed(s: string, q: nat, n: Node, compact: bool, depth: nat, pen: Pen)
    requires !IsPlain(n) && Legal(n) && depth + 1 < MAX_DEPTH && StartsWith(s, q, Body(compact, n, depth, pen))
    ensures ParseOne(s, q, depth + 1)
         == if depth + 1 + Nesting(n) < MAX_DEPTH
            then Got(SpacedNode(compact, n, depth, pen), q + |Body(compact, n, depth, pen)|) else Bad
    decreases n, 0
  {
    hide StartsWith, ParseOne, PrintList, Spaced, PrintNode, Ends;
    if n.Element? && n.children != [] {
      ElementBody(s, q, n, compact, depth, pen);
    } else {
      LeafIsParsed(s, q, n, depth + 1);
    }
  }

  // ----- documents -----

  lemma NothingFirst(compact: bool, n: Node)
    ensures GapBefore(compact, n, 0, START) == ""
  {
  }

  lemma NotByteOrderMark(s: string)
    requires s != [] && s[0] == '<' && SkipWhite(s, 0) == 0
    ensures ParseDocument(s)
         == match ParseNodes(s, 0, 1, [])
            case Ended(nodes) => Document(nodes)
            case ClosedBy(nodes, _, _) => Document(nodes)
            case Failed => ParseError
  {
    hide ParseNodes, StartsWith;
    Differs(s, 0, [0xEF as char, 0xBB as char, 0xBF as char], 0);
  }

  lemma FirstOfDocument(nodes: seq<Node>)
    requires PrintableDocument(nodes)
    ensures nodes != [] && !IsPlain(nodes[0]) && Legal(nodes[0]) && Listed(true, nodes, [])
    ensures forall s, p: nat :: TextEnds(s, p, nodes)
  {
    hide Ends;
  }

  /** Parsing the print of a document gives it with the white space that stands beside its
      texts, if it is nested below the limit, and fails otherwise. */
  lemma PrintedIsParsed(compact: bool, nodes: seq<Node>)
    requires PrintableDocument(nodes)
    ensures ParseDocument(PrintList(compact, nodes, 0, START))
         == if 1 + NestingOf(nodes) < MAX_DEPTH then Document(Spaced(compact, "", nodes, 0, START)) else ParseError
  {
    hide *;
    FirstOfDocument(nodes);
    var s, t := PrintList(compact, nodes, 0, START), Trunk(compact, nodes, 0, START);
    var tail, read := Tail(compact, nodes[|nodes| - 1], 0), Spaced(compact, "", nodes, 0, START);
    DocumentParts(s, compact, nodes);
    NoGap();
    assert "" + t == t && "" + tail == tail;
    AfterText(s, 0, compact, nodes, 0, START);
    BracketIsFirst(s);
    ListIsParsed(s, 0, "", compact, nodes, 0, START, []);
    assert [] + read == read;
    GapEnds(s, |t|, tail, read);
    ReadDocument(s, |t|, nodes, read);
  }

  lemma DocumentParts(s: string, compact: bool, nodes: seq<Node>)
    requires nodes != [] && s == PrintList(compact, nodes, 0, START)
    ensures var t, tail := Trunk(compact, nodes, 0, START), Tail(compact, nodes[|nodes| - 1], 0);
      StartsWith(s, 0, t) && StartsWith(s, |t|, tail) && |t| + |tail| == |s| && IsGap(tail)
  {
    var t, tail := Trunk(compact, nodes, 0, START), Tail(compact, nodes[|nodes| - 1], 0);
    TrunkIsPrint(compact, nodes, 0, START);
    NothingFirst(compact, nodes[0]);
    GapsAreGaps(compact, nodes[|nodes| - 1], 0, START);
    hide PrintList, Trunk, Tail, IsGap, GapBefore;
    assert s == t + tail && s[0..|s|] == s;
    StartsSplit(s, 0, t, tail);
  }

  lemma BracketIsFirst(s: string)
    requires At(s, 0) == '<'
    ensures s != [] && s[0] == '<' && SkipWhite(s, 0) == 0
  {
  }

  lemma ReadDocument(s: string, next: nat, nodes: seq<Node>, read: seq<Node>)
    requires s != [] && s[0] == '<' && SkipWhite(s, 0) == 0 && next <= |s|
    requires ParseNodes(s, 0, 1, []) == ReadTo(s, next, 0, nodes, read) && ParseNodes(s, next, 1, read) == Ended(read)
    ensures ParseDocument(s) == if 1 + NestingOf(nodes) < MAX_DEPTH then Document(read) else ParseError
  {
    hide ParseNodes, ParseDocument, NestingOf;
    NotByteOrderMark(s);
  }

  // ----- compact prints keep every tree -----

  lemma {:induction false} CompactSpaced(nodes: seq<Node>, depth: int, pen: Pen)
    ensures Spaced(true, "", nodes, depth, pen) == nodes
    decreases nodes, 1
  {
    if nodes != [] {
      hide After;
      CompactNode(nodes[0], depth, pen);
      CompactSpaced(nodes[1..], depth, After(nodes[0], depth, pen));
      assert Between(true, nodes, depth, pen) == "";
      assert IsPlain(nodes[0]) ==> "" + nodes[0].value + "" == nodes[0].value;
      assert nodes == [nodes[0]] + nodes[1..];
    }
  }

  lemma {:induction false} CompactNode(n: Node, depth: int, pen: Pen)
    ensures SpacedNode(true, n, depth, pen) == n
    decreases n, 0
  {
    if n.Element? && n.children != [] {
      CompactSpaced(n.children, depth + 1, Pen(pen.textDepth, false));
    }
  }

  /** Parsing the compact print of a document gives the document if it is nested below the
      limit, and fails otherwise. */
  lemma PrintIsParsed(nodes: seq<Node>)
    requires PrintableDocument(nodes)
    ensures ParseDocument(PrintNodes(nodes)) == if 1 + NestingOf(nodes) < MAX_DEPTH then Document(nodes) else ParseError
  {
    hide *;
    CompactList(nodes, 0, START);
    CompactSpaced(nodes, 0, START);
    PrintedIsParsed(true, nodes);
  }

  // ----- which trees the indented print keeps -----

  /** No text stands beside a gap. Inside an element: no text stands before an element. At the
      top of the document: no text stands after an element, and before anything but a CDATA
      section only while no tag or other markup has been written. */
  ghost predicate Kept(nodes: seq<Node>, top: bool, first: bool, closed: bool)
    decreases nodes
  {
    nodes == [] ||
    var n := nodes[0];
    && (IsPlain(n) ==> !closed)
    && (IsPlain(n) && |nodes| > 1 ==> if top then first || nodes[1].Text? else !nodes[1].Element?)
    && (n.Element? ==> Kept(n.children, false, false, false))
    && Kept(nodes[1..], top, first && n.Text?, top && n.Element?)
  }

  lemma IndentIsThere(depth: int)
    ensures Indent(depth) == "" <==> depth <= 0
  {
  }

  /** Where there is a gap after a text. */
  lemma GapAfterText(n: Node, next: Node, depth: nat, pen: Pen)
    requires IsPlain(n)
    ensures GapBefore(false, next, depth, After(n, depth, pen)) == ""
       <==> if depth == 0 then pen.first || next.Text? else !next.Element?
  {
    hide Indent;
    IndentIsThere(depth);
  }

  lemma TextIsKept(v: string, before: string, after: string)
    ensures before + v + after == v <==> before == "" && after == ""
  {
    assert |before + v + after| == |before| + |v| + |after|;
  }

  lemma SameHead(x: Node, n: Node, xs: seq<Node>, rest: seq<Node>)
    ensures [x] + xs == [n] + rest <==> x == n && xs == rest
  {
    assert ([x] + xs)[0] == x && ([n] + rest)[0] == n;
    assert ([x] + xs)[1..] == xs && ([n] + rest)[1..] == rest;
  }

  lemma {:induction false} KeptIff(nodes: seq<Node>, before: string, depth: nat, pen: Pen, closed: bool)
    requires nodes != [] && IsPlain(nodes[0]) ==> (before == "" <==> !closed)
    ensures Spaced(false, before, nodes, depth, pen) == nodes <==> Kept(nodes, depth == 0, pen.first, closed)
    decreases nodes, 1
  {
    if nodes != [] {
      hide SpacedNode, After, GapBefore, Between;
      var n, rest, pen' := nodes[0], nodes[1..], After(nodes[0], depth, pen);
      var between := Between(false, nodes, depth, pen);
      PenAfter(n, depth, pen);
      SpacedHead(before, nodes, depth, pen);
      TextAfter(nodes, depth, pen);
      if IsPlain(n) {
        TextIsKept(n.value, before, between);
        GapAfterHead(nodes, depth, pen);
      } else {
        KeptNodeIff(n, depth, pen);
      }
      hide Spaced;
      KeptIff(rest, if IsPlain(n) then "" else between, depth, pen', depth == 0 && n.Element?);
    }
  }

  lemma SpacedHead(before: string, nodes: seq<Node>, depth: nat, pen: Pen)
    requires nodes != []
    ensures var n, between := nodes[0], Between(false, nodes, depth, pen);
      Spaced(false, before, nodes, depth, pen) == nodes
      <==> && (if IsPlain(n) then before + n.value + between == n.value else SpacedNode(false, n, depth, pen) == n)
           && Spaced(false, if IsPlain(n) then "" else between, nodes[1..], depth, After(n, depth, pen)) == nodes[1..]
  {
    hide SpacedNode, After, Between;
    var n, between := nodes[0], Between(false, nodes, depth, pen);
    var x := if IsPlain(n) then Text(before + n.value + between, false) else SpacedNode(false, n, depth, pen);
    var xs := Spaced(false, if IsPlain(n) then "" else between, nodes[1..], depth, After(n, depth, pen));
    assert nodes == [n] + nodes[1..];
    SameHead(x, n, xs, nodes[1..]);
  }

  lemma GapAfterHead(nodes: seq<Node>, depth: nat, pen: Pen)
    requires nodes != [] && IsPlain(nodes[0])
    ensures Between(false, nodes, depth, pen) == ""
       <==> (|nodes| > 1 ==> if depth == 0 then pen.first || nodes[1].Text? else !nodes[1].Element?)
  {
    hide GapBefore, After;
    if |nodes| > 1 {
      GapAfterText(nodes[0], nodes[1], depth, pen);
    }
  }

  lemma PenAfter(n: Node, depth: int, pen: Pen)
    ensures After(n, depth, pen).first == (pen.first && n.Text?)
  {
    hide AfterAll;
  }

  /** A text is not indented, so it has white space before it only after an element at the top. */
  lemma TextAfter(nodes: seq<Node>, depth: nat, pen: Pen)
    requires nodes != []
    ensures |nodes| > 1 && IsPlain(nodes[1]) ==>
              (Between(false, nodes, depth, pen) == "" <==> !(depth == 0 && nodes[0].Element?))
  {
    hide After;
  }

  lemma {:induction false} KeptNodeIff(n: Node, depth: nat, pen: Pen)
    requires !IsPlain(n)
    ensures SpacedNode(false, n, depth, pen) == n <==> (n.Element? ==> Kept(n.children, false, false, false))
    decreases n, 0
  {
    if n.Element? && n.children != [] {
      var inner := Pen(pen.textDepth, false);
      KeptIff(n.children, GapBefore(false, n.children[0], depth + 1, inner), depth + 1, inner, false);
    }
  }

  /** For every document: parsing its indented print gives the document, if and only if it is
      nested below the limit and no text of it stands beside a gap. */
  lemma IndentedIsParsedIff(nodes: seq<Node>)
    requires PrintableDocument(nodes)
    ensures ParseDocument(PrintList(false, nodes, 0, START)) == Document(nodes)
       <==> 1 + NestingOf(nodes) < MAX_DEPTH && Kept(nodes, true, true, false)
  {
    hide Spaced, Kept, PrintList, ParseDocument, PrintableLevel, NestingOf;
    PrintedIsParsed(false, nodes);
    KeptIff(nodes, "", 0, START, false);
  }

  /** An element that holds a text and then an empty element. */
  function Mixed(v: string): Node {
    Element("a", [], [Text(v, false), Element("b", [], [])])
  }

  lemma MixedIsPrintable()
    ensures PrintableDocument([Mixed("x")]) && NestingOf([Mixed("x")]) == 1
  {
    var text, b := Text("x", false), Element("b", [], []);
    assert "x"[0] == 'x' && !IsWhite('x');
    assert Printable(text) && Printable(b);
    assert [text, b][1..] == [b] && [b][1..] == [];
    assert PrintableList([b]) && PrintableList([text, b]);
    assert NestingOf([b]) == 0 && NestingOf([text, b]) == 0;
    assert [Mixed("x")][1..] == [];
    assert Printable(Mixed("x")) && Nesting(Mixed("x")) == 1;
  }

  lemma MixedIsSpaced()
    ensures Spaced(false, "", [Mixed("x")], 0, START) == [Mixed("x    ")]
  {
    var text, b, inner := Text("x", false), Element("b", [], []), Pen(-1, false);
    var nodes := [text, b];
    assert nodes[1..] == [b] && [b][1..] == [];
    assert Indent(0) == "" && Indent(1) == "    ";
    assert Between(false, nodes, 1, inner) == "    ";
    assert Spaced(false, Between(false, [b], 1, Pen(0, false)), [], 1, After(b, 1, Pen(0, false))) == [];
    assert Spaced(false, "", [b], 1, Pen(0, false)) == [b];
    assert After(text, 1, inner) == Pen(0, false) && "" + "x" + "    " == "x    ";
    assert Spaced(false, "", nodes, 1, inner) == [Text("x    ", false)] + [b] == [Text("x    ", false), b];
    assert Mixed("x").children == nodes && GapBefore(false, text, 1, inner) == "";
    assert SpacedNode(false, Mixed("x"), 0, START) == Mixed("x    ");
    assert [Mixed("x")][1..] == [];
    assert [Mixed("x    ")] + [] == [Mixed("x    ")];
  }

  /** A text before an element comes back with the indentation of that element. */
  lemma MixedContentGrows()
    ensures PrintableDocument([Mixed("x")]) && !Kept([Mixed("x")], true, true, false)
    ensures ParseDocument(PrintList(false, [Mixed("x")], 0, START)) == Document([Mixed("x    ")])
  {
    hide *;
    MixedIsPrintable();
    MixedIsSpaced();
    PrintedIsParsed(false, [Mixed("x")]);
    IndentedIsParsedIff([Mixed("x")]);
    MixedDiffers();
  }

  lemma MixedDiffers()
    ensures Mixed("x") != Mixed("x    ") && 1 < MAX_DEPTH - 1
  {
    assert Mixed("x").children[0].value != Mixed("x    ").children[0].value;
  }
}
