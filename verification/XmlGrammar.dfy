/** What a text has to look like to be read as a tree: a grammar that says nothing of how the
    text is searched, and the proof that the parser accepts nothing else. */
module XmlGrammar {
  import opened Basics
  import opened XmlStrings
  import opened XmlParser

  // ----- pieces of text -----

  ghost predicate White(s: string, p: nat, q: nat) {
    p <= q <= |s| && forall i | p <= i < q :: IsWhite(s[i])
  }

  /** A whole name: no name character follows it. */
  ghost predicate NameAt(s: string, p: nat, e: nat) {
    && p < e <= |s| && IsNameStart(s[p])
    && (forall i | p <= i < e :: IsNameChar(s[i]))
    && (e < |s| ==> !IsNameChar(s[e]))
  }

  /** The text from p runs to the tag at e, which does not begin before. */
  ghost predicate RunsTo(s: string, p: nat, e: nat, tag: string) {
    && p <= e <= |s| && StartsWith(s, e, tag)
    && forall i | p <= i < e :: s[i] != NUL && !StartsWith(s, i, tag)
  }

  // ----- tags -----

  /** A name, an equals sign and a quoted value that is decoded. */
  ghost predicate AttrParts(s: string, p: nat, m: nat, a: Attr, e: nat, eq: nat, open: nat, close: nat) {
    && NameAt(s, p, e) && a.name == s[p..e]
    && White(s, e, eq) && At(s, eq) == '='
    && White(s, eq + 1, open) && open < |s| && (s[open] == '\"' || s[open] == '\'')
    && RunsTo(s, open + 1, close, [s[open]]) && a.value == Decode(s[open + 1..close], BOTH)
    && m == close + 1
  }

  ghost predicate SpellsAttr(s: string, p: nat, m: nat, a: Attr) {
    exists e: nat, eq: nat, open: nat, close: nat :: AttrParts(s, p, m, a, e, eq, open, close)
  }

  ghost predicate TagEnds(s: string, p: nat, m: nat, closed: bool) {
    exists q: nat ::
      White(s, p, q) && StartsWith(s, q, if closed then "/>" else ">") && m == q + if closed then 2 else 1
  }

  ghost predicate FirstAttr(s: string, p: nat, q: nat, k: nat, a: Attr) {
    White(s, p, q) && SpellsAttr(s, q, k, a)
  }

  ghost predicate SpellsAttrs(s: string, p: nat, m: nat, attrs: seq<Attr>, closed: bool)
    decreases |attrs|
  {
    if attrs == [] then TagEnds(s, p, m, closed)
    else exists q: nat, k: nat :: FirstAttr(s, p, q, k, attrs[0]) && SpellsAttrs(s, k, m, attrs[1..], closed)
  }

  ghost predicate DistinctNames(attrs: seq<Attr>) {
    forall i, j | 0 <= i < j < |attrs| :: attrs[i].name != attrs[j].name
  }

  ghost predicate TagParts(
      s: string, p: nat, m: nat, name: string, attrs: seq<Attr>, closing: Closing, q: nat, e: nat)
  {
    && White(s, p, q) && q < |s| && DistinctNames(attrs)
    && (closing == CloseTag ==> s[q] == '/') && (closing == Open ==> s[q] != '/')
    && var from := if s[q] == '/' then q + 1 else q;
       NameAt(s, from, e) && name == s[from..e] && SpellsAttrs(s, e, m, attrs, closing == Closed)
  }

  /** A tag after its bracket. */
  ghost predicate SpellsTag(s: string, p: nat, m: nat, name: string, attrs: seq<Attr>, closing: Closing) {
    exists q: nat, e: nat :: TagParts(s, p, m, name, attrs, closing, q, e)
  }

  // ----- nodes -----

  ghost predicate Marked(s: string, p: nat, m: nat, open: string, close: string, e: nat, v: string) {
    && StartsWith(s, p, open) && p + |open| <= |s|
    && RunsTo(s, p + |open|, e, close) && v == Decode(s[p + |open|..e], NEWLINES) && m == e + |close|
  }

  /** A value between two marks, with its line ends made plain. */
  ghost predicate SpellsMarkup(s: string, p: nat, m: nat, open: string, close: string, v: string) {
    exists e: nat :: Marked(s, p, m, open, close, e, v)
  }

  /** Text up to a bracket that is not the last character, with the white space before it. */
  ghost predicate SpellsText(s: string, p: nat, w: nat, m: nat, v: string) {
    && w < |s| && !IsWhite(s[w]) && s[w] != '<' && s[w] != NUL
    && RunsTo(s, p, m, "<") && At(s, m + 1) != NUL && v == Decode(s[p..m], BOTH)
  }

  /** The closing tag of the element: after white space, with its name. */
  ghost predicate EndTagAt(s: string, p: nat, m: nat, name: string, w: nat, attrs: seq<Attr>) {
    White(s, p, w) && StartsWith(s, w, "<") && SpellsTag(s, w + 1, m, name, attrs, CloseTag)
  }

  ghost predicate SpellsEndTag(s: string, p: nat, m: nat, name: string) {
    exists w: nat, attrs :: EndTagAt(s, p, m, name, w, attrs)
  }

  /** The text [p, m) is read as the node. */
  ghost predicate Spells(s: string, p: nat, m: nat, n: Node, depth: nat)
    decreases n, 1
  {
    exists w: nat :: White(s, p, w) && SpellsAt(s, p, w, m, n, depth)
  }

  ghost predicate SpellsAt(s: string, p: nat, w: nat, m: nat, n: Node, depth: nat)
    decreases n, 0
  {
    match n
    case Declaration(v) => SpellsMarkup(s, w, m, "<?", "?>", v)
    case Comment(v) => SpellsMarkup(s, w, m, "<!--", "-->", v)
    case Text(v, cdata) => if cdata then SpellsMarkup(s, w, m, "<![CDATA[", "]]>", v) else SpellsText(s, p, w, m, v)
    case Unknown(v) =>
      SpellsMarkup(s, w, m, "<!", ">", v) && !StartsWith(s, w, "<!--") && !StartsWith(s, w, "<![CDATA[")
    case Element(name, attrs, children) =>
      && StartsWith(s, w, "<")
      && (|| (children == [] && SpellsTag(s, w + 1, m, name, attrs, Closed))
          || SpellsOpened(s, w + 1, m, name, attrs, children, depth))
  }

  /** An element with its closing tag, one level further down; no declaration stands in it. */
  ghost predicate SpellsOpened(
      s: string, p: nat, m: nat, name: string, attrs: seq<Attr>, children: seq<Node>, depth: nat)
    decreases children, 3
  {
    && depth + 1 < MAX_DEPTH
    && (forall i | 0 <= i < |children| :: !children[i].Declaration?)
    && exists e: nat, k: nat ::
         && SpellsTag(s, p, e, name, attrs, Open)
         && SpellsList(s, e, k, children, depth + 1)
         && SpellsEndTag(s, k, m, name)
  }

  ghost predicate SpellsList(s: string, p: nat, m: nat, nodes: seq<Node>, depth: nat)
    decreases nodes, 2
  {
    if nodes == [] then p == m
    else exists k: nat :: Spells(s, p, k, nodes[0], depth) && SpellsList(s, k, m, nodes[1..], depth)
  }

  // ----- the parser finds what is there -----

  lemma SkipIsWhite(s: string, p: nat)
    requires p <= |s|
    ensures White(s, p, SkipWhite(s, p))
  {
  }

  lemma NameIsThere(s: string, p: nat)
    requires ParseName(s, p).Some?
    ensures NameAt(s, p, ParseName(s, p).value)
  {
    hide NameEnd;
    StartIsChar(s[p]);
  }

  lemma StartIsChar(c: char)
    requires IsNameStart(c)
    ensures IsNameChar(c)
  {
  }

  lemma {:induction false} TagIsThere(s: string, p: nat, tag: string)
    requires tag != [] && FindTag(s, p, tag).Some?
    ensures RunsTo(s, p, FindTag(s, p, tag).value, tag)
    decreases |s| - p
  {
    if !StartsWith(s, p, tag) {
      TagIsThere(s, p + 1, tag);
    }
  }

  lemma AttrIsThere(s: string, p: nat)
    requires ParseAttribute(s, p).GotAttr?
    ensures SpellsAttr(s, p, ParseAttribute(s, p).next, ParseAttribute(s, p).attr)
  {
    hide SkipWhite, FindTag, ParseName, Decode, NameAt, White, RunsTo;
    var r := ParseAttribute(s, p);
    var e := ParseName(s, p).value;
    var eq := SkipWhite(s, e);
    var open := SkipWhite(s, eq + 1);
    var close := FindTag(s, open + 1, [s[open]]).value;
    NameIsThere(s, p);
    SkipIsWhite(s, e);
    SkipIsWhite(s, eq + 1);
    TagIsThere(s, open + 1, [s[open]]);
    assert AttrParts(s, p, r.next, r.attr, e, eq, open, close);
  }

  lemma {:induction false} AttrsAreThere(s: string, p: nat, before: seq<Attr>)
    requires p <= |s| && ParseAttributes(s, p, before).Attrs? && DistinctNames(before)
    ensures var r := ParseAttributes(s, p, before);
      && before <= r.attrs && SpellsAttrs(s, p, r.next, r.attrs[|before|..], r.selfClosed)
      && DistinctNames(r.attrs)
    decreases |s| - p
  {
    hide SkipWhite, ParseAttribute, SpellsAttr, TagEnds, White, IsNameStart;
    var r := ParseAttributes(s, p, before);
    var q := SkipWhite(s, p);
    SkipIsWhite(s, p);
    if IsNameStart(s[q]) {
      var a := ParseAttribute(s, q);
      AttrIsThere(s, q);
      NewNameIsDistinct(before, a.attr);
      AttrsAreThere(s, a.next, before + [a.attr]);
      assert r.attrs[|before|] == a.attr;
      assert r.attrs[|before|..][1..] == r.attrs[|before + [a.attr]|..];
      assert FirstAttr(s, p, q, a.next, a.attr);
    } else {
      assert r.attrs[|before|..] == [];
      TagEndsThere(s, p, q, r.selfClosed);
    }
  }

  lemma TagEndsThere(s: string, p: nat, q: nat, closed: bool)
    requires White(s, p, q) && q < |s| && if closed then s[q] == '/' && At(s, q + 1) == '>' else s[q] == '>'
    ensures TagEnds(s, p, q + if closed then 2 else 1, closed)
  {
    if closed {
      assert s[q..q + 2] == "/>";
    } else {
      assert s[q..q + 1] == ">";
    }
  }

  lemma NewNameIsDistinct(attrs: seq<Attr>, a: Attr)
    requires DistinctNames(attrs) && !HasAttr(attrs, a.name)
    ensures DistinctNames(attrs + [a])
  {
    forall i | 0 <= i < |attrs| ensures attrs[i].name != a.name {
      assert attrs[i] in attrs;
    }
  }

  lemma TagIsSpelled(s: string, p: nat)
    requires p <= |s| && ParseTag(s, p).Tag?
    ensures var t := ParseTag(s, p); SpellsTag(s, p, t.next, t.name, t.attrs, t.closing)
  {
    hide SkipWhite, ParseName, ParseAttributes, NameAt, White, SpellsAttrs, DistinctNames;
    var t := ParseTag(s, p);
    var q := SkipWhite(s, p);
    var from := if At(s, q) == '/' then q + 1 else q;
    var e := ParseName(s, from).value;
    SkipIsWhite(s, p);
    NameIsThere(s, from);
    NothingRepeats();
    AttrsAreThere(s, e, []);
    var a := ParseAttributes(s, e, []);
    assert a.attrs[0..] == a.attrs;
    assert TagParts(s, p, t.next, t.name, t.attrs, t.closing, q, e);
  }

  lemma NothingRepeats()
    ensures DistinctNames([])
  {
  }

  // ----- the parser accepts only what is spelled -----

  lemma MarkupIsSpelled(s: string, p: nat, open: string, close: string, make: string -> Node)
    requires close != [] && StartsWith(s, p, open) && p + |open| <= |s|
    requires ParseUntil(s, p + |open|, close, make).Got?
    ensures var r := ParseUntil(s, p + |open|, close, make);
      exists v :: SpellsMarkup(s, p, r.next, open, close, v) && r.node == make(v)
  {
    hide FindTag, Decode, StartsWith, RunsTo;
    var r := ParseUntil(s, p + |open|, close, make);
    var e := FindTag(s, p + |open|, close).value;
    TagIsThere(s, p + |open|, close);
    var v := Decode(s[p + |open|..e], NEWLINES);
    assert Marked(s, p, r.next, open, close, e, v);
    assert SpellsMarkup(s, p, r.next, open, close, v);
  }

  lemma TextIsSpelled(s: string, p: nat, w: nat)
    requires p <= |s| && ParseText(s, p).Got?
    requires w < |s| && !IsWhite(s[w]) && s[w] != '<' && s[w] != NUL
    ensures var r := ParseText(s, p); r.node.Text? && !r.node.cdata && SpellsText(s, p, w, r.next, r.node.value)
  {
    hide FindTag, Decode, RunsTo;
    TagIsThere(s, p, "<");
  }

  ghost predicate Located(depth: nat, nodes: seq<Node>) {
    forall i | 0 <= i < |nodes| && nodes[i].Declaration? :: depth == 1 && (i == 0 || nodes[i - 1].Declaration?)
  }

  /** Nothing but white space to the end of the text or to a terminator. */
  ghost predicate TextOver(s: string, p: nat) {
    exists w: nat :: White(s, p, w) && At(s, w) == NUL
  }

  /** What reading one thing at p found. */
  ghost predicate OneIs(s: string, p: nat, r: One, depth: nat) {
    match r
    case Got(n, next) => Spells(s, p, next, n, depth)
    case Close(name, next) => SpellsEndTag(s, p, next, name)
    case Nothing => TextOver(s, p)
    case Bad => true
  }

  ghost predicate ListEnds(s: string, k: nat, r: Nodes) {
    match r
    case Ended(_) => TextOver(s, k)
    case ClosedBy(_, name, next) => SpellsEndTag(s, k, next, name)
    case Failed => false
  }

  /** What reading a level at p after these nodes found. */
  ghost predicate LevelIs(s: string, p: nat, before: seq<Node>, r: Nodes, depth: nat) {
    r.Failed? ||
    (before <= r.nodes && exists k: nat :: SpellsList(s, p, k, r.nodes[|before|..], depth) && ListEnds(s, k, r))
  }

  lemma {:induction false} OneIsSpelled(s: string, p: nat, depth: nat)
    requires p <= |s| && depth > 0
    ensures OneIs(s, p, ParseOne(s, p, depth), depth)
    decreases |s| - p, 0
  {
    hide SkipWhite, StartsWith, ParseUntil, ParseText, ParseElement, White, SpellsMarkup, SpellsText;
    var q := SkipWhite(s, p);
    SkipIsWhite(s, p);
    var r := ParseOne(s, p, depth);
    if At(s, q) == NUL {
    } else if StartsWith(s, q, "<?") {
      StartsSlice(s, q, "<?");
      MarkupFound(s, p, q, "<?", "?>", v => Declaration(v), r, depth);
    } else if StartsWith(s, q, "<!--") {
      StartsSlice(s, q, "<!--");
      MarkupFound(s, p, q, "<!--", "-->", v => Comment(v), r, depth);
    } else if StartsWith(s, q, "<![CDATA[") {
      StartsSlice(s, q, "<![CDATA[");
      MarkupFound(s, p, q, "<![CDATA[", "]]>", v => Text(v, true), r, depth);
    } else if StartsWith(s, q, "<!") {
      StartsSlice(s, q, "<!");
      MarkupFound(s, p, q, "<!", ">", v => Unknown(v), r, depth);
    } else if s[q] != '<' {
      TextOrBad(s, p);
      if r.Got? {
        TextIsSpelled(s, p, q);
        assert SpellsAt(s, p, q, r.next, r.node, depth);
      }
    } else {
      ElementIsSpelled(s, p, q, depth);
    }
  }

  /** Markup of the kinds that are read up to their end mark. */
  lemma MarkupFound(s: string, p: nat, w: nat, open: string, close: string, make: string -> Node, r: One, depth: nat)
    requires White(s, p, w) && close != [] && StartsWith(s, w, open) && w + |open| <= |s|
    requires r == ParseUntil(s, w + |open|, close, make)
    requires forall v, m: nat | SpellsMarkup(s, w, m, open, close, v) :: SpellsAt(s, p, w, m, make(v), depth)
    ensures OneIs(s, p, r, depth)
  {
    hide ParseUntil, StartsWith, SpellsMarkup, SpellsAt, White;
    if r.Got? {
      MarkupIsSpelled(s, w, open, close, make);
    } else {
      UntilIsBad(s, w + |open|, close, make);
    }
  }

  lemma TextOrBad(s: string, p: nat)
    requires p <= |s|
    ensures ParseText(s, p).Got? || ParseText(s, p).Bad?
  {
  }

  lemma UntilIsBad(s: string, p: nat, close: string, make: string -> Node)
    requires p <= |s| && close != []
    ensures ParseUntil(s, p, close, make).Got? || ParseUntil(s, p, close, make).Bad?
  {
  }

  lemma {:induction false} ElementIsSpelled(s: string, p: nat, w: nat, depth: nat)
    requires White(s, p, w) && w < |s| && s[w] == '<' && depth > 0
    ensures OneIs(s, p, ParseElement(s, w + 1, depth), depth)
    decreases |s| - w - 1, 2
  {
    hide White, ParseTag, ParseNodes, SpellsTag, SpellsList, SpellsEndTag;
    assert s[w..w + 1] == "<";
    var t := ParseTag(s, w + 1);
    var r := ParseElement(s, w + 1, depth);
    if t.Tag? {
      TagIsSpelled(s, w + 1);
      if t.closing == CloseTag {
        assert EndTagAt(s, p, t.next, t.name, w, t.attrs);
        EndTagFound(s, p, t.next, t.name, w, t.attrs);
      } else if t.closing == Closed {
        assert SpellsAt(s, p, w, t.next, r.node, depth);
      } else if At(s, t.next) != NUL {
        NodesAreSpelled(s, t.next, depth + 1, []);
        var inner := ParseNodes(s, t.next, depth + 1, []);
        if r.Got? {
          NotTooDeep(s, t.next, depth + 1, []);
          NoneInside(inner.nodes, depth + 1);
          OpenedFound(s, p, w, t.next, r.next, r.node, inner, depth);
        }
      }
    }
  }

  lemma EndTagFound(s: string, p: nat, m: nat, name: string, w: nat, attrs: seq<Attr>)
    requires EndTagAt(s, p, m, name, w, attrs)
    ensures SpellsEndTag(s, p, m, name)
  {
  }

  lemma NotTooDeep(s: string, p: nat, depth: nat, before: seq<Node>)
    requires p <= |s| && !ParseNodes(s, p, depth, before).Failed?
    ensures depth < MAX_DEPTH
  {
    hide ParseOne;
  }

  lemma NoneInside(nodes: seq<Node>, depth: nat)
    requires Located(depth, nodes) && depth != 1
    ensures forall i | 0 <= i < |nodes| :: !nodes[i].Declaration?
  {
  }

  lemma OpenedFound(s: string, p: nat, w: nat, e: nat, m: nat, n: Node, inner: Nodes, depth: nat)
    requires White(s, p, w) && StartsWith(s, w, "<") && n.Element?
    requires SpellsTag(s, w + 1, e, n.name, n.attrs, Open)
    requires depth + 1 < MAX_DEPTH && LevelIs(s, e, [], inner, depth + 1) && inner == ClosedBy(n.children, n.name, m)
    requires forall i | 0 <= i < |n.children| :: !n.children[i].Declaration?
    ensures Spells(s, p, m, n, depth)
  {
    hide White, SpellsTag, SpellsList, SpellsEndTag, StartsWith;
    assert inner.nodes[0..] == n.children;
    var k: nat :| SpellsList(s, e, k, n.children, depth + 1) && ListEnds(s, k, inner);
    assert SpellsOpened(s, w + 1, m, n.name, n.attrs, n.children, depth);
    assert SpellsAt(s, p, w, m, n, depth);
  }

  lemma {:induction false} NodesAreSpelled(s: string, p: nat, depth: nat, before: seq<Node>)
    requires p <= |s| && depth > 0 && Located(depth, before)
    ensures LevelIs(s, p, before, ParseNodes(s, p, depth, before), depth)
    ensures !ParseNodes(s, p, depth, before).Failed? ==> Located(depth, ParseNodes(s, p, depth, before).nodes)
    decreases |s| - p, 1
  {
    hide ParseOne, Spells, SpellsEndTag, White;
    if depth < MAX_DEPTH {
      OneIsSpelled(s, p, depth);
      var one := ParseOne(s, p, depth);
      if one.Nothing? || one.Close? {
        assert before[|before|..] == [];
        assert SpellsList(s, p, p, [], depth);
      } else if one.Got? && (one.node.Declaration? ==> WellLocated(depth, before)) {
        LocatedMore(depth, before, one.node);
        NodesAreSpelled(s, one.next, depth, before + [one.node]);
        LevelGrows(s, p, before, one.node, one.next, ParseNodes(s, one.next, depth, before + [one.node]), depth);
      }
    }
  }

  lemma LocatedMore(depth: nat, before: seq<Node>, n: Node)
    requires Located(depth, before) && (n.Declaration? ==> WellLocated(depth, before))
    ensures Located(depth, before + [n])
  {
  }

  lemma ListGrows(s: string, p: nat, k: nat, m: nat, n: Node, more: seq<Node>, depth: nat)
    requires Spells(s, p, k, n, depth) && SpellsList(s, k, m, more, depth)
    ensures SpellsList(s, p, m, [n] + more, depth)
  {
    hide Spells;
    assert ([n] + more)[1..] == more;
  }

  lemma LevelGrows(s: string, p: nat, before: seq<Node>, n: Node, next: nat, r: Nodes, depth: nat)
    requires Spells(s, p, next, n, depth) && LevelIs(s, next, before + [n], r, depth)
    ensures LevelIs(s, p, before, r, depth)
  {
    hide Spells, SpellsList, ListEnds;
    if !r.Failed? {
      var more := r.nodes[|before + [n]|..];
      var k: nat :| SpellsList(s, next, k, more, depth) && ListEnds(s, k, r);
      ListGrows(s, p, next, k, n, more, depth);
      assert r.nodes[|before|] == (before + [n])[|before|] == n;
      assert r.nodes[|before|..] == [n] + more;
    }
  }

  // ----- the parser accepts all that is spelled -----

  lemma {:induction false} WhiteIsSkipped(s: string, p: nat, w: nat)
    requires White(s, p, w) && (w < |s| ==> !IsWhite(s[w]))
    ensures SkipWhite(s, p) == w
    decreases w - p
  {
    if p < w {
      WhiteIsSkipped(s, p + 1, w);
    }
  }

  lemma {:induction false} NameEndIs(s: string, p: nat, e: nat)
    requires p <= e <= |s| && (forall i | p <= i < e :: IsNameChar(s[i])) && (e < |s| ==> !IsNameChar(s[e]))
    ensures NameEnd(s, p) == e
    decreases e - p
  {
    if p < e {
      NameEndIs(s, p + 1, e);
    }
  }

  lemma NameIsRead(s: string, p: nat, e: nat)
    requires NameAt(s, p, e)
    ensures ParseName(s, p) == Some(e) && !IsWhite(s[p]) && s[p] != '/' && s[p] != '>' && s[p] != '!' && s[p] != '?'
  {
    hide NameEnd;
    NameEndIs(s, p + 1, e);
  }

  lemma {:induction false} TagIsFound(s: string, p: nat, e: nat, tag: string)
    requires RunsTo(s, p, e, tag) && tag != [] && tag[0] != NUL
    ensures FindTag(s, p, tag) == Some(e)
    decreases e - p
  {
    StartsAt(s, e, tag, 0);
    if p < e {
      TagIsFound(s, p + 1, e, tag);
    }
  }

  lemma AttrIsRead(s: string, p: nat, m: nat, a: Attr)
    requires SpellsAttr(s, p, m, a)
    ensures ParseAttribute(s, p) == GotAttr(a, m) && p < |s| && IsNameStart(s[p]) && !IsWhite(s[p])
  {
    hide SkipWhite, FindTag, ParseName, Decode, RunsTo;
    var e: nat, eq: nat, open: nat, close: nat :| AttrParts(s, p, m, a, e, eq, open, close);
    NameIsRead(s, p, e);
    WhiteIsSkipped(s, e, eq);
    WhiteIsSkipped(s, eq + 1, open);
    TagIsFound(s, open + 1, close, [s[open]]);
    assert e == eq || IsWhite(s[e]);
  }

  lemma TagEndIsRead(s: string, p: nat, m: nat, closed: bool, before: seq<Attr>)
    requires TagEnds(s, p, m, closed)
    ensures p <= |s| && ParseAttributes(s, p, before) == Attrs(before, closed, m)
  {
    hide SkipWhite, ParseAttribute;
    var q: nat :| White(s, p, q) && StartsWith(s, q, if closed then "/>" else ">") && m == q + if closed then 2 else 1;
    StartsAt(s, q, if closed then "/>" else ">", 0);
    if closed {
      StartsAt(s, q, "/>", 1);
    }
    WhiteIsSkipped(s, p, q);
  }

  lemma {:induction false} AttrsAreRead(s: string, p: nat, m: nat, attrs: seq<Attr>, closed: bool, before: seq<Attr>)
    requires SpellsAttrs(s, p, m, attrs, closed) && DistinctNames(before + attrs)
    ensures p <= |s| && ParseAttributes(s, p, before) == Attrs(before + attrs, closed, m)
    decreases |attrs|
  {
    hide SkipWhite, ParseAttribute, SpellsAttr, TagEnds, DistinctNames, HasAttr, IsNameStart, IsWhite;
    if attrs == [] {
      TagEndIsRead(s, p, m, closed, before);
      assert before + attrs == before;
    } else {
      var q: nat, k: nat :| FirstAttr(s, p, q, k, attrs[0]) && SpellsAttrs(s, k, m, attrs[1..], closed);
      AttrIsRead(s, q, k, attrs[0]);
      WhiteIsSkipped(s, p, q);
      NameIsNew(before, attrs);
      assert before + attrs == (before + [attrs[0]]) + attrs[1..];
      AttrsAreRead(s, k, m, attrs[1..], closed, before + [attrs[0]]);
    }
  }

  lemma NameIsNew(before: seq<Attr>, attrs: seq<Attr>)
    requires attrs != [] && DistinctNames(before + attrs)
    ensures !HasAttr(before, attrs[0].name)
  {
    var all := before + attrs;
    forall i | 0 <= i < |before| ensures before[i].name != attrs[0].name {
      assert all[i] == before[i] && all[|before|] == attrs[0];
    }
  }

  lemma TagIsRead(s: string, p: nat, m: nat, name: string, attrs: seq<Attr>, closing: Closing)
    requires SpellsTag(s, p, m, name, attrs, closing)
    ensures p < |s| && ParseTag(s, p) == Tag(name, attrs, closing, m) && s[p] != '!' && s[p] != '?' && s[p] != NUL
  {
    hide SkipWhite, ParseName, ParseAttributes, SpellsAttrs, DistinctNames;
    var q: nat, e: nat :| TagParts(s, p, m, name, attrs, closing, q, e);
    var from := if s[q] == '/' then q + 1 else q;
    NameIsRead(s, from, e);
    WhiteIsSkipped(s, p, q);
    assert [] + attrs == attrs;
    AttrsAreRead(s, e, m, attrs, closing == Closed, []);
    assert p == q || IsWhite(s[p]);
    NameIsThereToo(s, from, e);
  }

  lemma NameIsThereToo(s: string, p: nat, e: nat)
    requires NameAt(s, p, e)
    ensures s[p] != NUL
  {
  }

  lemma MarkupIsRead(s: string, p: nat, m: nat, open: string, close: string, v: string, make: string -> Node)
    requires SpellsMarkup(s, p, m, open, close, v) && close != [] && close[0] != NUL
    ensures StartsWith(s, p, open) && p + |open| <= |s| && ParseUntil(s, p + |open|, close, make) == Got(make(v), m)
  {
    hide FindTag, Decode, StartsWith, RunsTo;
    var e: nat :| Marked(s, p, m, open, close, e, v);
    TagIsFound(s, p + |open|, e, close);
  }
  lemma Differs(s: string, p: nat, t: string, i: nat)
    requires i < |t| && p + i < |s| && s[p + i] != t[i]
    ensures !StartsWith(s, p, t)
  {
    assert p + |t| <= |s| ==> s[p..p + |t|][i] == s[p + i];
  }

  /** A bracket before anything but these two starts an element. */
  lemma NoMarkup(s: string, w: nat)
    requires w + 1 < |s| && (s[w] != '<' || (s[w + 1] != '!' && s[w + 1] != '?'))
    ensures !StartsWith(s, w, "<?") && !StartsWith(s, w, "<!")
    ensures !StartsWith(s, w, "<!--") && !StartsWith(s, w, "<![CDATA[")
  {
    hide StartsWith;
    var i := if s[w] != '<' then 0 else 1;
    Differs(s, w, "<?", i);
    Differs(s, w, "<!", i);
    Differs(s, w, "<!--", i);
    Differs(s, w, "<![CDATA[", i);
  }

  lemma LeafIsRead(s: string, p: nat, w: nat, m: nat, n: Node, depth: nat)
    requires !n.Element? && White(s, p, w) && SpellsAt(s, p, w, m, n, depth)
    ensures p <= |s| && ParseOne(s, p, depth) == Got(n, m)
  {
    hide SkipWhite, StartsWith, ParseUntil, FindTag, Decode, SpellsMarkup, RunsTo, ParseElement;
    match n
    case Declaration(v) =>
      MarkupIsRead(s, w, m, "<?", "?>", v, x => Declaration(x));
      StartsAt(s, w, "<?", 0);
      WhiteIsSkipped(s, p, w);
    case Comment(v) =>
      MarkupIsRead(s, w, m, "<!--", "-->", v, x => Comment(x));
      StartsAt(s, w, "<!--", 0);
      StartsAt(s, w, "<!--", 1);
      WhiteIsSkipped(s, p, w);
      Differs(s, w, "<?", 1);
    case Unknown(v) =>
      MarkupIsRead(s, w, m, "<!", ">", v, x => Unknown(x));
      StartsAt(s, w, "<!", 0);
      StartsAt(s, w, "<!", 1);
      WhiteIsSkipped(s, p, w);
      Differs(s, w, "<?", 1);
    case Text(v, cdata) =>
      if cdata {
        MarkupIsRead(s, w, m, "<![CDATA[", "]]>", v, x => Text(x, true));
        StartsAt(s, w, "<![CDATA[", 0);
        StartsAt(s, w, "<![CDATA[", 1);
        StartsAt(s, w, "<![CDATA[", 2);
        WhiteIsSkipped(s, p, w);
        Differs(s, w, "<?", 1);
        Differs(s, w, "<!--", 2);
      } else {
        WhiteIsSkipped(s, p, w);
        TextIsRead(s, p, w, m, v);
      }
  }

  lemma TextIsRead(s: string, p: nat, w: nat, m: nat, v: string)
    requires White(s, p, w) && SpellsText(s, p, w, m, v)
    ensures ParseText(s, p) == Got(Text(v, false), m)
    ensures !StartsWith(s, w, "<?") && !StartsWith(s, w, "<!")
    ensures !StartsWith(s, w, "<!--") && !StartsWith(s, w, "<![CDATA[")
  {
    hide FindTag, Decode;
    TagIsFound(s, p, m, "<");
    StartsAt(s, m, "<", 0);
    Differs(s, w, "<?", 0);
    Differs(s, w, "<!", 0);
    Differs(s, w, "<!--", 0);
    Differs(s, w, "<![CDATA[", 0);
  }

  lemma EndTagIsRead(s: string, p: nat, m: nat, name: string, depth: nat)
    requires SpellsEndTag(s, p, m, name)
    ensures p < m <= |s| && ParseOne(s, p, depth) == Close(name, m) && At(s, p) != NUL
  {
    hide SkipWhite, StartsWith, SpellsTag, ParseTag, ParseNodes;
    var w: nat, attrs :| EndTagAt(s, p, m, name, w, attrs);
    StartsAt(s, w, "<", 0);
    TagIsRead(s, w + 1, m, name, attrs, CloseTag);
    WhiteIsSkipped(s, p, w);
    NoMarkup(s, w);
    assert p == w || IsWhite(s[p]);
  }

  /** A node does not start with the terminator. */
  lemma NodeIsNotNul(s: string, p: nat, m: nat, n: Node, depth: nat)
    requires Spells(s, p, m, n, depth)
    ensures At(s, p) != NUL
  {
    hide SpellsTag, SpellsOpened, SpellsMarkup, StartsWith, RunsTo;
    var w: nat :| White(s, p, w) && SpellsAt(s, p, w, m, n, depth);
    if p == w {
      match n
      case Declaration(v) => MarkupStarts(s, w, m, "<?", "?>", v);
      case Comment(v) => MarkupStarts(s, w, m, "<!--", "-->", v);
      case Unknown(v) => MarkupStarts(s, w, m, "<!", ">", v);
      case Element(_, _, _) => StartsAt(s, w, "<", 0);
      case Text(v, cdata) =>
        if cdata {
          MarkupStarts(s, w, m, "<![CDATA[", "]]>", v);
        }
    } else {
      assert IsWhite(s[p]);
    }
  }

  lemma MarkupStarts(s: string, p: nat, m: nat, open: string, close: string, v: string)
    requires SpellsMarkup(s, p, m, open, close, v) && open != []
    ensures At(s, p) == open[0]
  {
    hide StartsWith, RunsTo, Decode;
    var e: nat :| Marked(s, p, m, open, close, e, v);
    StartsAt(s, p, open, 0);
  }

  lemma {:induction false} NodeIsRead(s: string, p: nat, m: nat, n: Node, depth: nat)
    requires Spells(s, p, m, n, depth) && 0 < depth < MAX_DEPTH
    ensures p < m <= |s| && ParseOne(s, p, depth) == Got(n, m)
    decreases n, 1
  {
    hide SkipWhite, White, StartsWith, ParseElement, SpellsTag, SpellsOpened, ParseOne;
    var w: nat :| White(s, p, w) && SpellsAt(s, p, w, m, n, depth);
    if n.Element? {
      StartsAt(s, w, "<", 0);
      if n.children == [] && SpellsTag(s, w + 1, m, n.name, n.attrs, Closed) {
        TagIsRead(s, w + 1, m, n.name, n.attrs, Closed);
        ClosedIsRead(s, w + 1, m, n, depth);
      } else {
        OpenedIsRead(s, w + 1, m, n, depth);
      }
      ElementIsRead(s, p, w, m, n, depth);
    } else {
      LeafIsRead(s, p, w, m, n, depth);
    }
  }

  lemma ClosedIsRead(s: string, p: nat, m: nat, n: Node, depth: nat)
    requires n.Element? && n.children == [] && p < |s| && ParseTag(s, p) == Tag(n.name, n.attrs, Closed, m)
    ensures ParseElement(s, p, depth) == Got(n, m)
  {
  }

  lemma ElementIsRead(s: string, p: nat, w: nat, m: nat, n: Node, depth: nat)
    requires White(s, p, w) && w + 1 < |s| && s[w] == '<' && s[w + 1] != '!' && s[w + 1] != '?'
    requires ParseElement(s, w + 1, depth) == Got(n, m)
    ensures ParseOne(s, p, depth) == Got(n, m)
  {
    hide SkipWhite, StartsWith, ParseElement;
    WhiteIsSkipped(s, p, w);
    NoMarkup(s, w);
  }

  lemma {:induction false} OpenedIsRead(s: string, p: nat, m: nat, n: Node, depth: nat)
    requires n.Element? && SpellsOpened(s, p, m, n.name, n.attrs, n.children, depth) && depth > 0
    ensures p < |s| && ParseElement(s, p, depth) == Got(n, m) && s[p] != '!' && s[p] != '?'
    decreases n.children, 3
  {
    hide SpellsTag, SpellsEndTag, ParseTag, ParseOne;
    var e: nat, k: nat :|
      && SpellsTag(s, p, e, n.name, n.attrs, Open) && SpellsList(s, e, k, n.children, depth + 1)
      && SpellsEndTag(s, k, m, n.name);
    TagIsRead(s, p, e, n.name, n.attrs, Open);
    EndTagIsRead(s, k, m, n.name, depth + 1);
    if n.children != [] {
      var j: nat :| Spells(s, e, j, n.children[0], depth + 1) && SpellsList(s, j, k, n.children[1..], depth + 1);
      NodeIsNotNul(s, e, j, n.children[0], depth + 1);
    }
    hide SpellsList;
    assert [] + n.children == n.children;
    ListIsRead(s, e, k, n.children, depth + 1, []);
  }

  lemma {:induction false} ListIsRead(s: string, p: nat, m: nat, nodes: seq<Node>, depth: nat, before: seq<Node>)
    requires SpellsList(s, p, m, nodes, depth) && p <= |s| && 0 < depth < MAX_DEPTH && Located(depth, before + nodes)
    ensures m <= |s| && ParseNodes(s, p, depth, before) == ParseNodes(s, m, depth, before + nodes)
    decreases nodes, 2
  {
    hide Spells, ParseOne, Located, WellLocated;
    if nodes == [] {
      assert before + nodes == before;
    } else {
      var n, rest := nodes[0], nodes[1..];
      var k: nat :| Spells(s, p, k, n, depth) && SpellsList(s, k, m, rest, depth);
      NodeIsRead(s, p, k, n, depth);
      if n.Declaration? {
        LeadsIfLocated(depth, before, nodes);
      }
      assert (before + [n]) + rest == before + nodes;
      ListIsRead(s, k, m, rest, depth, before + [n]);
    }
  }

  /** A list does not end before it starts. */
  lemma {:induction false} ListGoesOn(s: string, p: nat, m: nat, nodes: seq<Node>, depth: nat)
    requires SpellsList(s, p, m, nodes, depth) && 0 < depth < MAX_DEPTH
    ensures p <= m
    decreases |nodes|
  {
    hide Spells;
    if nodes != [] {
      var k: nat :| Spells(s, p, k, nodes[0], depth) && SpellsList(s, k, m, nodes[1..], depth);
      NodeIsRead(s, p, k, nodes[0], depth);
      ListGoesOn(s, k, m, nodes[1..], depth);
    }
  }

  lemma LeadsIfLocated(depth: nat, before: seq<Node>, nodes: seq<Node>)
    requires nodes != [] && nodes[0].Declaration? && Located(depth, before + nodes)
    ensures WellLocated(depth, before)
  {
    var all := before + nodes;
    assert all[|before|] == nodes[0];
    if before != [] {
      assert all[|before| - 1] == before[|before| - 1];
      FirstDeclares(depth, all, |before|);
      assert all[0] == before[0];
    }
  }

  lemma {:induction false} FirstDeclares(depth: nat, v: seq<Node>, i: nat)
    requires Located(depth, v) && i < |v| && v[i].Declaration?
    ensures v[0].Declaration?
    decreases i
  {
    if i > 0 {
      FirstDeclares(depth, v, i - 1);
    }
  }

  // ----- documents -----

  /** White space and a byte order mark may stand before a document. */
  ghost predicate Preamble(s: string, p: nat) {
    exists q: nat ::
      && White(s, 0, q) && (q < |s| ==> !IsWhite(s[q]))
      && p == if StartsWith(s, q, [0xEF as char, 0xBB as char, 0xBF as char]) then q + 3 else q
  }

  /** The nodes spell the text from its preamble to its end, to a terminator or to a closing tag;
      there is something, and declarations come first. */
  ghost predicate SpellsDocument(s: string, nodes: seq<Node>) {
    && Located(1, nodes)
    && exists p: nat, k: nat ::
         Preamble(s, p) && At(s, p) != NUL && SpellsList(s, p, k, nodes, 1) && DocumentEnds(s, k)
  }

  ghost predicate DocumentEnds(s: string, k: nat) {
    TextOver(s, k) || exists m: nat, name :: SpellsEndTag(s, k, m, name)
  }

  /** For every text: the parser makes a document of it only if the grammar spells the text so. */
  lemma ParsedIsSpelled(s: string)
    requires ParseDocument(s).Document?
    ensures SpellsDocument(s, ParseDocument(s).nodes)
  {
    hide SkipWhite, ParseNodes, StartsWith, White, SpellsList, SpellsEndTag;
    var q := SkipWhite(s, 0);
    var p := if StartsWith(s, q, [0xEF as char, 0xBB as char, 0xBF as char]) then q + 3 else q;
    SkipIsWhite(s, 0);
    assert Preamble(s, p);
    NodesAreSpelled(s, p, 1, []);
    var r := ParseNodes(s, p, 1, []);
    assert r.nodes[0..] == r.nodes;
    var k: nat :| SpellsList(s, p, k, r.nodes, 1) && ListEnds(s, k, r);
    assert DocumentEnds(s, k);
  }

  lemma OverIsNothing(s: string, k: nat, nodes: seq<Node>)
    requires TextOver(s, k)
    ensures k <= |s| && ParseNodes(s, k, 1, nodes) == Ended(nodes)
  {
    hide SkipWhite;
    var w: nat :| White(s, k, w) && At(s, w) == NUL;
    WhiteIsSkipped(s, k, w);
  }

  lemma ClosedIsDone(s: string, k: nat, m: nat, name: string, nodes: seq<Node>)
    requires SpellsEndTag(s, k, m, name)
    ensures k <= |s| && ParseNodes(s, k, 1, nodes) == ClosedBy(nodes, name, m)
  {
    hide ParseOne, SpellsEndTag;
    EndTagIsRead(s, k, m, name, 1);
  }

  /** And of every text that the grammar spells so it makes that document. */
  lemma SpelledIsParsed(s: string, nodes: seq<Node>)
    requires SpellsDocument(s, nodes)
    ensures ParseDocument(s) == Document(nodes)
  {
    hide SkipWhite, ParseNodes, SpellsList, SpellsEndTag, TextOver, Located;
    var p: nat, k: nat :| Preamble(s, p) && At(s, p) != NUL && SpellsList(s, p, k, nodes, 1) && DocumentEnds(s, k);
    var q: nat :|
      && White(s, 0, q) && (q < |s| ==> !IsWhite(s[q]))
      && p == if StartsWith(s, q, [0xEF as char, 0xBB as char, 0xBF as char]) then q + 3 else q;
    WhiteIsSkipped(s, 0, q);
    assert [] + nodes == nodes;
    ListIsRead(s, p, k, nodes, 1, []);
    if TextOver(s, k) {
      OverIsNothing(s, k, nodes);
    } else {
      var m: nat, name :| SpellsEndTag(s, k, m, name);
      ClosedIsDone(s, k, m, name, nodes);
    }
  }

  /** For every text and tree: the parser reads the text as the tree if and only if the grammar
      spells the tree so. */
  lemma ParsedIffSpelled(s: string, nodes: seq<Node>)
    ensures ParseDocument(s) == Document(nodes) <==> SpellsDocument(s, nodes)
  {
    hide ParseDocument, SpellsDocument;
    if ParseDocument(s) == Document(nodes) {
      ParsedIsSpelled(s);
    }
    if SpellsDocument(s, nodes) {
      SpelledIsParsed(s, nodes);
    }
  }
}
