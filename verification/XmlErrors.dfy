/** Texts that are not read: elements closed by another name and tags with a repeated attribute. */
module XmlErrors {
  import opened Basics
  import opened XmlStrings
  import opened XmlParser
  import opened XmlRoundTrip
  import opened XmlTrees
  import Grammar = XmlGrammar

  /** For every text: an element that was left open and read ends in a closing tag with its name. */
  lemma OpenedEndsInItsTag(s: string, p: nat, depth: nat)
    requires p <= |s| && depth > 0 && ParseTag(s, p).Tag? && ParseTag(s, p).closing == Open
    requires ParseElement(s, p, depth).Got?
    ensures var r := ParseElement(s, p, depth);
      && r.node.Element? && r.node.name == ParseTag(s, p).name
      && exists k: nat :: ParseTag(s, p).next <= k < r.next && Grammar.SpellsEndTag(s, k, r.next, r.node.name)
  {
    hide ParseTag, ParseNodes;
    var t, r := ParseTag(s, p), ParseElement(s, p, depth);
    Grammar.NodesAreSpelled(s, t.next, depth + 1, []);
    var inner := ParseNodes(s, t.next, depth + 1, []);
    assert inner.nodes[0..] == inner.nodes;
    var k: nat :| Grammar.SpellsList(s, t.next, k, inner.nodes, depth + 1) && Grammar.ListEnds(s, k, inner);
    Grammar.NotTooDeep(s, t.next, depth + 1, []);
    Grammar.EndTagIsRead(s, k, r.next, r.node.name, depth + 1);
    Grammar.ListGoesOn(s, t.next, k, inner.nodes, depth + 1);
  }

  // ----- closed by another name -----

  /** What a level makes of printed nodes and a closing tag after them. */
  lemma ListThenClose(s: string, p: nat, nodes: seq<Node>, depth: nat, name: string)
    requires PrintableList(nodes) && LegalName(name) && depth > 0
    requires StartsWith(s, p, PrintNodes(nodes)) && StartsWith(s, p + |PrintNodes(nodes)|, "</" + name + ">")
    ensures p <= |s| && At(s, p) != NUL
    ensures ParseNodes(s, p, depth + 1, [])
         == if depth + 1 + NestingOf(nodes) < MAX_DEPTH
            then ClosedBy(nodes, name, p + |PrintNodes(nodes)| + |name| + 3) else Failed
  {
    hide ParseNodes, ParseOne, PrintableList, LegalName, StartsWith, PrintNodes, NestingOf;
    var to := p + |PrintNodes(nodes)|;
    CloseIsParsed(s, to, name, depth + 1);
    StartsSlice(s, p, PrintNodes(nodes));
    if depth + 1 < MAX_DEPTH {
      LevelCloses(s, to, depth + 1, nodes, name, to + |name| + 3);
    }
    if nodes == [] {
      NothingPrinted();
      Deep(s, p, depth + 1);
    } else {
      PrintedList(s, p, nodes, depth, name);
    }
  }

  lemma NothingPrinted()
    ensures PrintNodes([]) == "" && NestingOf([]) == 0
  {
  }

  lemma Deep(s: string, p: nat, depth: nat)
    requires p <= |s|
    ensures depth >= MAX_DEPTH ==> ParseNodes(s, p, depth, []) == Failed
  {
  }

  lemma PrintedList(s: string, p: nat, nodes: seq<Node>, depth: nat, name: string)
    requires nodes != [] && PrintableList(nodes) && depth > 0
    requires StartsWith(s, p, PrintNodes(nodes)) && StartsWith(s, p + |PrintNodes(nodes)|, "</" + name + ">")
    ensures p + |PrintNodes(nodes)| <= |s| && At(s, p) != NUL
    ensures ParseNodes(s, p, depth + 1, []) == ReadTo(s, p + |PrintNodes(nodes)|, depth, nodes, nodes)
  {
    hide *;
    CompactTrunk(nodes, depth, START);
    CompactSpaced(nodes, depth, START);
    NoGap();
    Unlisted(nodes);
    ClosesText(s, p + |PrintNodes(nodes)|, nodes, name);
    assert "" + Trunk(true, nodes, depth, START) == PrintNodes(nodes);
    ListIsNotNul(s, p, "", true, nodes, depth, START);
    InnerList(depth, nodes);
    ListIsParsed(s, p, "", true, nodes, depth, START, []);
    assert [] + nodes == nodes;
  }

  lemma CompactTrunk(nodes: seq<Node>, depth: int, pen: Pen)
    requires nodes != []
    ensures Trunk(true, nodes, depth, pen) == PrintNodes(nodes)
  {
    TrunkIsPrint(true, nodes, depth, pen);
    CompactList(nodes, depth, pen);
    hide PrintList, Trunk, PrintNodes;
  }

  lemma Unlisted(nodes: seq<Node>)
    requires nodes != [] && PrintableList(nodes)
    ensures Printable(nodes[0])
  {
  }

  lemma InnerList(depth: nat, nodes: seq<Node>)
    requires depth > 0 && PrintableList(nodes)
    ensures Listed(depth == 0, nodes, [])
  {
  }

  lemma ClosesText(s: string, p: nat, nodes: seq<Node>, name: string)
    requires nodes != [] && StartsWith(s, p, "</" + name + ">")
    ensures TextEnds(s, p, nodes)
  {
    StartsAt(s, p, "</" + name + ">", 0);
    StartsAt(s, p, "</" + name + ">", 1);
    StartsOne(s, p, '<');
  }

  /** An element closed by another name is an error, whatever it holds and whatever follows. */
  lemma MismatchFails(a: string, attrs: seq<Attr>, children: seq<Node>, b: string, rest: string)
    requires LegalName(a) && LegalAttrs(attrs) && PrintableList(children) && LegalName(b) && a != b
    ensures ParseDocument(OpenTag(a, attrs) + ">" + (PrintNodes(children) + ("</" + b + ">" + rest))) == ParseError
  {
    hide LegalName, LegalAttrs, PrintableList, OpenTag, PrintNodes, ParseTag, ParseNodes, ParseOne, StartsWith;
    hide ParseDocument, NestingOf;
    var open, list, close := OpenTag(a, attrs) + ">", PrintNodes(children), "</" + b + ">";
    var s := open + (list + (close + rest));
    WholeStarts(s);
    StartsSplit(s, 0, open, list + (close + rest));
    StartsSplit(s, |open|, list, close + rest);
    StartsSplit(s, |open| + |list|, close, rest);
    TagIsParsed(s, 0, a, attrs, ">");
    ListThenClose(s, |open|, children, 1, b);
    BracketIsElement(s, 0, 1);
    OtherName(s, 1, 1, a, b);
    LevelFails(s, 0, 1, []);
    BracketIsFirst(s);
    NotByteOrderMark(s);
  }

  lemma WholeStarts(s: string)
    ensures StartsWith(s, 0, s)
  {
    assert s[0..|s|] == s;
  }

  lemma OtherName(s: string, p: nat, depth: nat, a: string, b: string)
    requires p <= |s| && ParseTag(s, p).Tag? && ParseTag(s, p).name == a && ParseTag(s, p).closing == Open && a != b
    requires var r := ParseNodes(s, ParseTag(s, p).next, depth + 1, []); r.ClosedBy? ==> r.name == b
    ensures ParseElement(s, p, depth) == Bad
  {
    hide ParseTag, ParseNodes;
  }

  // ----- a repeated attribute -----

  ghost predicate LegalEach(attrs: seq<Attr>) {
    forall a | a in attrs :: LegalName(a.name) && Clean(a.value)
  }

  lemma SomeRepeats(before: seq<Attr>, attrs: seq<Attr>)
    requires Grammar.DistinctNames(before) && !Grammar.DistinctNames(before + attrs)
    ensures attrs != []
  {
    if before + attrs == before {
      assert false;
    }
  }

  lemma {:induction false} RepeatIsBad(s: string, p: nat, attrs: seq<Attr>, before: seq<Attr>)
    requires StartsWith(s, p, PrintAttrs(attrs)) && LegalEach(attrs)
    requires Grammar.DistinctNames(before) && !Grammar.DistinctNames(before + attrs)
    ensures p <= |s| && ParseAttributes(s, p, before) == BadAttrs
    decreases |attrs|
  {
    hide StartsWith, PrintAttr, ParseAttribute, SkipWhite, IsNameStart, LegalName, Clean, HasAttr;
    hide Grammar.DistinctNames;
    SomeRepeats(before, attrs);
    if attrs != [] {
      var a, rest := attrs[0], attrs[1..];
      assert a in attrs && forall x | x in rest :: x in attrs;
      StartsSplit(s, p, PrintAttr(a), PrintAttrs(rest));
      AttrIsParsed(s, p, a);
      if !HasAttr(before, a.name) {
        Grammar.NewNameIsDistinct(before, a);
        assert (before + [a]) + rest == before + attrs;
        RepeatIsBad(s, p + |PrintAttr(a)|, rest, before + [a]);
      }
    }
  }

  /** A tag with a repeated attribute name is an error, whatever follows. */
  lemma RepeatedNameFails(name: string, attrs: seq<Attr>, rest: string)
    requires LegalName(name) && LegalEach(attrs) && !Grammar.DistinctNames(attrs)
    ensures ParseDocument(OpenTag(name, attrs) + rest) == ParseError
  {
    hide LegalName, LegalEach, ParseNodes, ParseOne, StartsWith, ParseDocument, PrintAttrs, ParseAttributes;
    hide Grammar.DistinctNames, NameEnd, ParseName;
    Grammar.NothingRepeats();
    var s, list := OpenTag(name, attrs) + rest, PrintAttrs(attrs);
    AttrsAreThere(attrs);
    WholeStarts(s);
    assert s == "<" + (name + (list + rest));
    StartsSplit(s, 0, "<", name + (list + rest));
    StartsAt(s, 0, "<", 0);
    assert name + (list + rest) == (name + " ") + (list + rest)[1..];
    StartsSplit(s, 1, name + " ", (list + rest)[1..]);
    EqualsEndsName();
    NameIsParsed(s, 1, name, ' ');
    StartsSplit(s, 1, name, list + rest);
    StartsSplit(s, 1 + |name|, list, rest);
    assert [] + attrs == attrs;
    RepeatIsBad(s, 1 + |name|, attrs, []);
    BadTagFails(s, 1 + |name|);
  }

  lemma AttrsAreThere(attrs: seq<Attr>)
    requires !Grammar.DistinctNames(attrs)
    ensures PrintAttrs(attrs) != [] && PrintAttrs(attrs)[0] == ' '
  {
    hide Escape;
    assert attrs != [];
    assert PrintAttr(attrs[0])[0] == ' ';
  }

  lemma BadTagFails(s: string, end: nat)
    requires |s| > 1 && s[0] == '<' && s[1] != '!' && s[1] != '?' && s[1] != '/' && !IsWhite(s[1])
    requires ParseName(s, 1) == Some(end) && end <= |s| && ParseAttributes(s, end, []) == BadAttrs
    ensures ParseDocument(s) == ParseError
  {
    hide ParseNodes, ParseOne, StartsWith, ParseDocument, ParseAttributes, ParseName;
    assert SkipWhite(s, 1) == 1 && ParseTag(s, 1) == BadTag;
    BracketIsElement(s, 0, 1);
    LevelFails(s, 0, 1, []);
    BracketIsFirst(s);
    NotByteOrderMark(s);
  }
}
