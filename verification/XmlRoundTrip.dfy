/** Compact printing, what can be printed and read back, and the parser on the print of each
    kind of node. */
module XmlRoundTrip {
  import opened Basics
  import opened XmlStrings
  import opened XmlParser

  // ----- compact printing -----

  function PrintAttr(a: Attr): string {
    " " + a.name + "=\"" + Escape(a.value, false) + "\""
  }

  function PrintAttrs(attrs: seq<Attr>): string {
    if attrs == [] then "" else PrintAttr(attrs[0]) + PrintAttrs(attrs[1..])
  }

  function OpenTag(name: string, attrs: seq<Attr>): string {
    "<" + name + PrintAttrs(attrs)
  }

  function PrintNode(n: Node): string
    decreases n
  {
    match n
    case Element(name, attrs, children) =>
      if children == [] then OpenTag(name, attrs) + "/>"
      else OpenTag(name, attrs) + ">" + PrintNodes(children) + "</" + name + ">"
    case Text(value, cdata) => if cdata then "<![CDATA[" + value + "]]>" else Escape(value, true)
    case Comment(value) => "<!--" + value + "-->"
    case Declaration(value) => "<?" + value + "?>"
    case Unknown(value) => "<!" + value + ">"
  }

  function PrintNodes(nodes: seq<Node>): string
    decreases nodes
  {
    if nodes == [] then "" else PrintNode(nodes[0]) + PrintNodes(nodes[1..])
  }

  // ----- what can be printed and read back -----

  ghost predicate LegalName(name: string) {
    name != [] && IsNameStart(name[0]) && forall i | 0 <= i < |name| :: IsNameChar(name[i])
  }

  /** Without carriage returns and terminators. */
  ghost predicate Clean(v: string) {
    CR !in v && NUL !in v
  }

  ghost predicate LegalAttrs(attrs: seq<Attr>) {
    && (forall a | a in attrs :: LegalName(a.name) && Clean(a.value))
    && forall i, j | 0 <= i < j < |attrs| :: attrs[i].name != attrs[j].name
  }

  ghost predicate Blank(v: string) {
    forall i | 0 <= i < |v| :: IsWhite(v[i])
  }

  ghost predicate Contains(v: string, t: string) {
    exists i: nat :: StartsWith(v, i, t)
  }

  /** The value can stand before its end tag. */
  ghost predicate Ends(v: string, tag: string) {
    Clean(v) && !Contains(v, tag)
  }

  /** Text outside CDATA sections. */
  predicate IsPlain(n: Node) {
    n.Text? && !n.cdata
  }

  /** Elements with legal names and distinct attributes; plain text that is not blank, of which
      no two pieces are neighbours; and comments, CDATA sections and unknown markup whose value
      does not contain the end tag, or for the last a start that makes it one of the others. */
  ghost predicate Printable(n: Node)
    decreases n
  {
    match n
    case Element(name, attrs, children) => LegalName(name) && LegalAttrs(attrs) && PrintableList(children)
    case Text(value, cdata) => if cdata then Ends(value, "]]>") else Clean(value) && !Blank(value)
    case Comment(value) => Ends(value, "-->")
    case Unknown(value) => Ends(value, ">") && !StartsWith(value, 0, "--") && !StartsWith(value, 0, "[CDATA[")
    case Declaration(_) => false
  }

  ghost predicate PrintableList(nodes: seq<Node>)
    decreases nodes
  {
    && (nodes != [] ==> Printable(nodes[0]) && PrintableList(nodes[1..]))
    && (|nodes| > 1 ==> !(IsPlain(nodes[0]) && IsPlain(nodes[1])))
  }

  /** How many levels of elements with content there are. */
  ghost function Nesting(n: Node): nat
    decreases n
  {
    if n.Element? && n.children != [] then 1 + NestingOf(n.children) else 0
  }

  ghost function NestingOf(nodes: seq<Node>): nat
    decreases nodes
  {
    if nodes == [] then 0
    else if Nesting(nodes[0]) > NestingOf(nodes[1..]) then Nesting(nodes[0]) else NestingOf(nodes[1..])
  }

  // ----- pieces of the parser on pieces of the print -----

  lemma {:induction false} NameEnds(s: string, p: nat, name: string, c: char)
    requires StartsWith(s, p, name + [c]) && !IsNameChar(c) && forall i | 0 <= i < |name| :: IsNameChar(name[i])
    ensures NameEnd(s, p) == p + |name|
    decreases |name|
  {
    StartsAt(s, p, name + [c], 0);
    if name != [] {
      assert name + [c] == [name[0]] + (name[1..] + [c]);
      StartsSplit(s, p, [name[0]], name[1..] + [c]);
      NameEnds(s, p + 1, name[1..], c);
    }
  }

  lemma NameIsParsed(s: string, p: nat, name: string, c: char)
    requires StartsWith(s, p, name + [c]) && LegalName(name) && !IsNameChar(c)
    ensures ParseName(s, p) == Some(p + |name|) && s[p..p + |name|] == name && s[p + |name|] == c
    ensures !IsWhite(s[p]) && s[p] != '/' && s[p] != '>' && s[p] != '!' && s[p] != '?' && s[p] != NUL
  {
    hide StartsWith;
    StartsAt(s, p, name + [c], 0);
    StartsAt(s, p, name + [c], |name|);
    assert name + [c] == [name[0]] + (name[1..] + [c]);
    StartsSplit(s, p, [name[0]], name[1..] + [c]);
    NameEnds(s, p + 1, name[1..], c);
    StartsSplit(s, p, name, [c]);
    StartsSlice(s, p, name);
  }

  lemma StartsOne(s: string, p: nat, c: char)
    ensures StartsWith(s, p, [c]) <==> p < |s| && s[p] == c
  {
    if p < |s| {
      assert s[p..p + 1] == [s[p]];
    }
  }

  lemma {:induction false} TagIsFound(s: string, p: nat, t: string, c: char)
    requires StartsWith(s, p, t + [c]) && c !in t && NUL !in t && c != NUL
    ensures FindTag(s, p, [c]) == Some(p + |t|)
    decreases |t|
  {
    StartsAt(s, p, t + [c], 0);
    if t == [] {
      assert t + [c] == [c];
    } else {
      assert t + [c] == [t[0]] + (t[1..] + [c]);
      StartsSplit(s, p, [t[0]], t[1..] + [c]);
      assert t[0] in t;
      StartsOne(s, p, c);
      TagIsFound(s, p + 1, t[1..], c);
    }
  }

  // ----- attributes -----

  lemma AttrParts(s: string, p: nat, a: Attr)
    requires StartsWith(s, p, PrintAttr(a))
    ensures var e := Escape(a.value, false); var open := p + 2 + |a.name|;
      && open < |s| && s[p] == ' ' && s[open] == '\"'
      && StartsWith(s, p + 1, a.name + "=") && StartsWith(s, open + 1, e + "\"") && StartsWith(s, open + 1, e)
      && open + 2 + |e| == p + |PrintAttr(a)|
  {
    hide StartsWith, Escape;
    var e := Escape(a.value, false);
    var open := p + 2 + |a.name|;
    assert PrintAttr(a) == " " + ((a.name + "=") + ("\"" + (e + "\"")));
    StartsSplit(s, p, " ", (a.name + "=") + ("\"" + (e + "\"")));
    StartsSplit(s, p + 1, a.name + "=", "\"" + (e + "\""));
    StartsSplit(s, open, "\"", e + "\"");
    StartsSplit(s, open + 1, e, "\"");
    StartsAt(s, p, " ", 0);
    StartsAt(s, open, "\"", 0);
  }

  lemma AttrIsParsed(s: string, p: nat, a: Attr)
    requires StartsWith(s, p, PrintAttr(a)) && LegalName(a.name) && Clean(a.value)
    ensures SkipWhite(s, p) == p + 1 && p + 1 < |s| && IsNameStart(s[p + 1])
    ensures ParseAttribute(s, p + 1) == GotAttr(a, p + |PrintAttr(a)|)
  {
    hide StartsWith, NameEnd, ParseName, IsNameStart, IsNameChar, FindTag, LegalName, Escape, Decode, PrintAttr;
    var e := Escape(a.value, false);
    var open := p + 2 + |a.name|;
    AttrParts(s, p, a);
    EqualsEndsName();
    NameIsParsed(s, p + 1, a.name, '=');
    NameStarts(s, p + 1, a.name, "=");
    assert SkipWhite(s, p + 1) == p + 1;
    EscapeAvoids(a.value, false, '\"');
    EscapeAvoids(a.value, false, NUL);
    TagIsFound(s, open + 1, e, '\"');
    StartsSlice(s, open + 1, e);
    DecodeUndoesEscape(a.value, false);
  }

  lemma EqualsEndsName()
    ensures !IsNameChar('=') && !IsNameChar(' ') && !IsNameChar('>') && !IsNameChar('/')
  {
  }

  lemma NameStarts(s: string, p: nat, name: string, t: string)
    requires StartsWith(s, p, name + t) && LegalName(name)
    ensures p < |s| && s[p] == name[0] && IsNameStart(s[p])
  {
    StartsAt(s, p, name + t, 0);
  }

  lemma AttrStep(s: string, p: nat, a: Attr, before: seq<Attr>)
    requires StartsWith(s, p, PrintAttr(a)) && LegalName(a.name) && Clean(a.value) && !HasAttr(before, a.name)
    ensures p + |PrintAttr(a)| <= |s|
    ensures ParseAttributes(s, p, before) == ParseAttributes(s, p + |PrintAttr(a)|, before + [a])
  {
    hide StartsWith, ParseAttribute, PrintAttr, SkipWhite, LegalName, Clean, IsNameStart, HasAttr;
    AttrIsParsed(s, p, a);
  }

  lemma {:induction false} AttrsAreParsed(s: string, p: nat, attrs: seq<Attr>, before: seq<Attr>)
    requires StartsWith(s, p, PrintAttrs(attrs)) && LegalAttrs(before + attrs)
    ensures ParseAttributes(s, p, before) == ParseAttributes(s, p + |PrintAttrs(attrs)|, before + attrs)
    decreases |attrs|
  {
    hide StartsWith, ParseAttributes, PrintAttr, LegalName, Clean;
    if attrs == [] {
      assert before + attrs == before;
    } else {
      var a, rest := attrs[0], attrs[1..];
      var all := before + attrs;
      StartsSplit(s, p, PrintAttr(a), PrintAttrs(rest));
      assert all[|before|] == a;
      assert before + [a] + rest == all;
      NewName(before, attrs);
      AttrStep(s, p, a, before);
      AttrsAreParsed(s, p + |PrintAttr(a)|, rest, before + [a]);
    }
  }

  lemma NewName(before: seq<Attr>, attrs: seq<Attr>)
    requires attrs != [] && LegalAttrs(before + attrs)
    ensures !HasAttr(before, attrs[0].name)
  {
    var all := before + attrs;
    forall i | 0 <= i < |before| ensures before[i].name != attrs[0].name {
      assert all[i] == before[i] && all[|before|] == attrs[0];
    }
  }

  // ----- tags -----

  /** A tag with its attributes, up to the characters that end it. */
  lemma TagIsParsed(s: string, p: nat, name: string, attrs: seq<Attr>, end: string)
    requires StartsWith(s, p, OpenTag(name, attrs) + end) && LegalName(name) && LegalAttrs(attrs)
    requires end == ">" || end == "/>"
    ensures p + 1 < |s| && s[p] == '<' && s[p + 1] != '!' && s[p + 1] != '?'
    ensures ParseTag(s, p + 1)
         == Tag(name, attrs, if end == ">" then Open else Closed, p + |OpenTag(name, attrs) + end|)
  {
    hide StartsWith, NameEnd, ParseName, IsNameStart, IsNameChar, LegalName, LegalAttrs, ParseAttributes, PrintAttrs;
    var after := p + 1 + |name|;
    var rest := PrintAttrs(attrs) + end;
    assert OpenTag(name, attrs) + end == "<" + (name + rest);
    StartsSplit(s, p, "<", name + rest);
    StartsAt(s, p, "<", 0);
    AttrsStart(attrs, end);
    assert name + rest == (name + [rest[0]]) + rest[1..];
    StartsSplit(s, p + 1, name + [rest[0]], rest[1..]);
    NameIsParsed(s, p + 1, name, rest[0]);
    StartsSplit(s, p + 1, name, rest);
    StartsSplit(s, after, PrintAttrs(attrs), end);
    assert [] + attrs == attrs;
    AttrsAreParsed(s, after, attrs, []);
    TagEnds(s, after + |PrintAttrs(attrs)|, attrs, end);
  }

  lemma AttrsStart(attrs: seq<Attr>, end: string)
    requires end == ">" || end == "/>"
    ensures PrintAttrs(attrs) + end != [] && !IsNameChar((PrintAttrs(attrs) + end)[0])
  {
    if attrs != [] {
      assert PrintAttr(attrs[0])[0] == ' ';
    }
  }

  lemma TagEnds(s: string, p: nat, attrs: seq<Attr>, end: string)
    requires StartsWith(s, p, end) && (end == ">" || end == "/>")
    ensures ParseAttributes(s, p, attrs) == Attrs(attrs, end == "/>", p + |end|)
  {
    StartsAt(s, p, end, 0);
    if end == "/>" {
      StartsAt(s, p, end, 1);
    }
    assert SkipWhite(s, p) == p;
  }

  lemma CloseTagIsParsed(s: string, p: nat, name: string)
    requires StartsWith(s, p, "</" + name + ">") && LegalName(name)
    ensures p + 1 < |s| && s[p] == '<' && s[p + 1] == '/'
    ensures ParseTag(s, p + 1) == Tag(name, [], CloseTag, p + |name| + 3)
  {
    hide StartsWith, NameEnd, ParseName, IsNameStart, IsNameChar, LegalName, ParseAttributes;
    assert "</" + name + ">" == "</" + (name + ">");
    StartsSplit(s, p, "</", name + ">");
    StartsAt(s, p, "</", 0);
    StartsAt(s, p, "</", 1);
    EqualsEndsName();
    NameIsParsed(s, p + 2, name, '>');
    StartsSplit(s, p + 2, name, ">");
    TagEnds(s, p + 2 + |name|, [], ">");
  }

  /** A closing tag ends the level. */
  lemma CloseIsParsed(s: string, p: nat, name: string, depth: nat)
    requires StartsWith(s, p, "</" + name + ">") && LegalName(name)
    ensures ParseOne(s, p, depth) == Close(name, p + |name| + 3)
    ensures p + 1 < |s| && s[p] == '<' && s[p + 1] == '/'
  {
    hide StartsWith, ParseTag, LegalName, ParseOne, ParseNodes;
    CloseTagIsParsed(s, p, name);
    BracketIsElement(s, p, depth);
  }

  lemma BracketIsElement(s: string, p: nat, depth: nat)
    requires p + 1 < |s| && s[p] == '<' && s[p + 1] != '!' && s[p + 1] != '?'
    ensures ParseOne(s, p, depth) == ParseElement(s, p + 1, depth)
  {
    hide StartsWith, ParseElement, ParseUntil, ParseText, SkipWhite;
    NotMarkup(s, p);
  }

  lemma Differs(s: string, p: nat, t: string, i: nat)
    requires i < |t| && p + i < |s| && s[p + i] != t[i]
    ensures !StartsWith(s, p, t)
  {
    assert p + |t| <= |s| ==> s[p..p + |t|][i] == s[p + i];
  }

  /** A bracket before anything but these two characters starts an element. */
  lemma NotMarkup(s: string, p: nat)
    requires p + 1 < |s| && s[p] == '<' && s[p + 1] != '!' && s[p + 1] != '?'
    ensures SkipWhite(s, p) == p
    ensures !StartsWith(s, p, "<?") && !StartsWith(s, p, "<!")
    ensures !StartsWith(s, p, "<!--") && !StartsWith(s, p, "<![CDATA[")
  {
    hide StartsWith;
    Differs(s, p, "<?", 1);
    Differs(s, p, "<!--", 1);
    Differs(s, p, "<![CDATA[", 1);
    Differs(s, p, "<!", 1);
  }

  // ----- text -----

  lemma {:induction false} EscapeIsNotBlank(v: string)
    requires !Blank(v)
    ensures !Blank(Escape(v, true))
    decreases |v|
  {
    var n := |v| - 1;
    var e := EscapeChar(v[n], true);
    var front := Escape(v[..n], true);
    assert Escape(v, true) == front + e;
    if IsWhite(v[n]) {
      EscapeIsNotBlank(v[..n]);
      var i :| 0 <= i < |front| && !IsWhite(front[i]);
      assert (front + e)[i] == front[i];
    } else {
      assert (front + e)[|front|] == e[0] && !IsWhite(e[0]);
    }
  }

  /** Where skipping white space from the print of a text stops: inside the text. */
  lemma SkipStaysInText(s: string, p: nat, v: string)
    requires StartsWith(s, p, Escape(v, true)) && Clean(v) && !Blank(v)
    ensures var q := SkipWhite(s, p); q < p + |Escape(v, true)| && s[q] != '<' && s[q] != NUL
  {
    hide SkipWhite, Escape;
    var e, q := Escape(v, true), SkipWhite(s, p);
    EscapeIsNotBlank(v);
    var i :| 0 <= i < |e| && !IsWhite(e[i]);
    StartsAt(s, p, e, i);
    assert q <= p + i;
    StartsAt(s, p, e, q - p);
    EscapeAvoids(v, true, '<');
    EscapeAvoids(v, true, NUL);
    assert e[q - p] in e;
  }

  lemma TextIsParsed(s: string, p: nat, v: string, depth: nat)
    requires StartsWith(s, p, Escape(v, true) + "<") && Clean(v) && !Blank(v)
    requires At(s, p + |Escape(v, true)| + 1) != NUL
    ensures ParseOne(s, p, depth) == Got(Text(v, false), p + |Escape(v, true)|)
  {
    hide StartsWith, SkipWhite, Escape, Decode, FindTag, Blank, ParseTag, ParseNodes, ParseUntil;
    var e, q := Escape(v, true), SkipWhite(s, p);
    StartsSplit(s, p, e, "<");
    SkipStaysInText(s, p, v);
    Differs(s, q, "<?", 0);
    Differs(s, q, "<!--", 0);
    Differs(s, q, "<![CDATA[", 0);
    Differs(s, q, "<!", 0);
    EscapeAvoids(v, true, '<');
    EscapeAvoids(v, true, NUL);
    TagIsFound(s, p, e, '<');
    StartsSlice(s, p, e);
    DecodeUndoesEscape(v, true);
  }

  // ----- comments, CDATA sections, declarations and unknown markup -----

  /** A tag that ends in its only closing bracket is found after the value it closes. */
  lemma {:induction false} EndIsFound(s: string, p: nat, v: string, tag: string)
    requires tag != [] && tag[|tag| - 1] == '>' && '>' !in tag[..|tag| - 1] && NUL !in tag
    requires StartsWith(s, p, v + tag) && Ends(v, tag)
    ensures FindTag(s, p, tag) == Some(p + |v|)
    decreases |v|
  {
    StartsAt(s, p, v + tag, 0);
    if v == [] {
      assert v + tag == tag;
      assert tag[0] in tag;
    } else {
      assert v + tag == [v[0]] + (v[1..] + tag);
      assert v[0] in v;
      StartsSplit(s, p, [v[0]], v[1..] + tag);
      NotYetEnded(s, p, v, tag);
      ShorterEnds(v, tag);
      EndIsFound(s, p + 1, v[1..], tag);
    }
  }

  lemma NotYetEnded(s: string, p: nat, v: string, tag: string)
    requires tag != [] && tag[|tag| - 1] == '>' && '>' !in tag[..|tag| - 1] && v != []
    requires StartsWith(s, p, v + tag) && !Contains(v, tag)
    ensures !StartsWith(s, p, tag)
  {
    var k := |tag| - 1;
    if |tag| <= |v| {
      assert !StartsWith(v, 0, tag);
      assert s[p..p + |tag|] == s[p..p + |v + tag|][..|tag|] == (v + tag)[..|tag|] == v[0..|tag|];
    } else {
      StartsAt(s, p, v + tag, k);
      assert (v + tag)[k] == tag[k - |v|] == tag[..k][k - |v|];
      Differs(s, p, tag, k);
    }
  }

  lemma ShorterEnds(v: string, tag: string)
    requires v != [] && Ends(v, tag)
    ensures Ends(v[1..], tag)
  {
    forall i: nat ensures !StartsWith(v[1..], i, tag) {
      assert !StartsWith(v, i + 1, tag);
      if i + 1 + |tag| <= |v| {
        SliceOfTail(v, i, |tag|);
      }
    }
  }

  lemma SliceOfTail(v: string, i: nat, n: nat)
    requires i + 1 + n <= |v|
    ensures v[1..][i..i + n] == v[i + 1..i + 1 + n]
  {
  }

  lemma {:induction false} NothingToDecode(v: string, p: nat, out: string)
    requires p <= |v| && out == v[..p] && CR !in v
    ensures DecodeFrom(v, NEWLINES, p, out) == v
    decreases |v| - p
  {
    if p == |v| {
      assert out == v;
    } else {
      assert v[p] in v;
      assert p + 1 < |v| ==> v[p + 1] in v;
      assert Piece(v, NEWLINES, p, |out|) == ([v[p]], p + 1);
      assert out + [v[p]] == v[..p + 1];
      NothingToDecode(v, p + 1, out + [v[p]]);
    }
  }

  /** Text to an end tag is read as it was printed. */
  lemma UntilIsParsed(s: string, p: nat, v: string, tag: string, make: string -> Node)
    requires tag != [] && tag[|tag| - 1] == '>' && '>' !in tag[..|tag| - 1] && NUL !in tag
    requires StartsWith(s, p, v + tag) && Ends(v, tag)
    ensures p <= |s| && ParseUntil(s, p, tag, make) == Got(make(v), p + |v| + |tag|)
  {
    hide StartsWith, FindTag, DecodeFrom, Contains;
    EndIsFound(s, p, v, tag);
    StartsSplit(s, p, v, tag);
    StartsSlice(s, p, v);
    NothingToDecode(v, 0, []);
  }

  lemma BracketStops(s: string, p: nat)
    requires p < |s| && s[p] == '<'
    ensures SkipWhite(s, p) == p && At(s, p) != NUL
  {
  }

  lemma DeclarationIsParsed(s: string, p: nat, v: string, depth: nat)
    requires StartsWith(s, p, "<?" + v + "?>") && Ends(v, "?>")
    ensures ParseOne(s, p, depth) == Got(Declaration(v), p + |"<?" + v + "?>"|)
  {
    hide StartsWith, SkipWhite, ParseUntil, ParseText, ParseElement, Ends;
    assert "<?" + v + "?>" == "<?" + (v + "?>");
    StartsSplit(s, p, "<?", v + "?>");
    StartsAt(s, p, "<?", 0);
    BracketStops(s, p);
    UntilIsParsed(s, p + 2, v, "?>", x => Declaration(x));
  }

  lemma CommentIsParsed(s: string, p: nat, v: string, depth: nat)
    requires StartsWith(s, p, "<!--" + v + "-->") && Ends(v, "-->")
    ensures ParseOne(s, p, depth) == Got(Comment(v), p + |"<!--" + v + "-->"|)
  {
    hide StartsWith, SkipWhite, ParseUntil, ParseText, ParseElement, Ends;
    assert "<!--" + v + "-->" == "<!--" + (v + "-->");
    StartsSplit(s, p, "<!--", v + "-->");
    StartsAt(s, p, "<!--", 0);
    StartsAt(s, p, "<!--", 1);
    BracketStops(s, p);
    Differs(s, p, "<?", 1);
    UntilIsParsed(s, p + 4, v, "-->", x => Comment(x));
  }

  lemma CDataIsParsed(s: string, p: nat, v: string, depth: nat)
    requires StartsWith(s, p, "<![CDATA[" + v + "]]>") && Ends(v, "]]>")
    ensures ParseOne(s, p, depth) == Got(Text(v, true), p + |"<![CDATA[" + v + "]]>"|)
  {
    hide StartsWith, SkipWhite, ParseUntil, ParseText, ParseElement, Ends;
    assert "<![CDATA[" + v + "]]>" == "<![CDATA[" + (v + "]]>");
    StartsSplit(s, p, "<![CDATA[", v + "]]>");
    StartsAt(s, p, "<![CDATA[", 0);
    StartsAt(s, p, "<![CDATA[", 1);
    StartsAt(s, p, "<![CDATA[", 2);
    BracketStops(s, p);
    Differs(s, p, "<?", 1);
    Differs(s, p, "<!--", 2);
    UntilIsParsed(s, p + 9, v, "]]>", x => Text(x, true));
  }

  /** Unknown markup is not taken for a longer opening that its value does not have. */
  lemma NotLonger(s: string, p: nat, v: string, more: string)
    requires StartsWith(s, p, "<!" + (v + ">")) && '>' !in more && !StartsWith(v, 0, more)
    ensures !StartsWith(s, p, "<!" + more)
  {
    StartsSplit(s, p, "<!", v + ">");
    StartsSplit(s, p, "<!", more);
    StartsAt(s, p + 2, v + ">", |v|);
    if |more| <= |v| {
      StartsSplit(s, p + 2, v, ">");
      StartsSlice(s, p + 2, v);
      assert s[p + 2..p + 2 + |more|] == s[p + 2..p + 2 + |v|][..|more|] == v[0..|more|];
    } else {
      assert more[|v|] in more;
      Differs(s, p + 2, more, |v|);
    }
  }

  lemma UnknownIsParsed(s: string, p: nat, v: string, depth: nat)
    requires StartsWith(s, p, "<!" + v + ">") && Ends(v, ">")
    requires !StartsWith(v, 0, "--") && !StartsWith(v, 0, "[CDATA[")
    ensures ParseOne(s, p, depth) == Got(Unknown(v), p + |"<!" + v + ">"|)
  {
    hide StartsWith, SkipWhite, ParseUntil, ParseText, ParseElement, Ends;
    assert "<!" + v + ">" == "<!" + (v + ">");
    StartsSplit(s, p, "<!", v + ">");
    StartsAt(s, p, "<!", 0);
    StartsAt(s, p, "<!", 1);
    BracketStops(s, p);
    Differs(s, p, "<?", 1);
    NotLonger(s, p, v, "--");
    NotLonger(s, p, v, "[CDATA[");
    assert "<!" + "--" == "<!--" && "<!" + "[CDATA[" == "<![CDATA[";
    UntilIsParsed(s, p + 2, v, ">", x => Unknown(x));
  }

  // ----- trees -----

  /** The print of anything but plain text starts with a bracket and another character. */
  lemma NodeStarts(s: string, p: nat, n: Node)
    requires !IsPlain(n) && (Printable(n) || n.Declaration?) && StartsWith(s, p, PrintNode(n))
    ensures p + 1 < |s| && s[p] == '<' && s[p + 1] != NUL
  {
    hide PrintNodes, PrintAttrs, StartsWith, Ends;
    var t := PrintNode(n);
    assert t[0] == '<' && t[1] == if n.Element? then n.name[0] else if n.Declaration? then '?' else '!';
    StartsAt(s, p, t, 0);
    StartsAt(s, p, t, 1);
  }

  lemma EmptyElementIsParsed(s: string, p: nat, name: string, attrs: seq<Attr>, depth: nat)
    requires StartsWith(s, p, OpenTag(name, attrs) + "/>") && LegalName(name) && LegalAttrs(attrs)
    ensures ParseOne(s, p, depth) == Got(Element(name, attrs, []), p + |OpenTag(name, attrs) + "/>"|)
  {
    hide StartsWith, ParseTag, ParseNodes, ParseOne, OpenTag, LegalName, LegalAttrs;
    TagIsParsed(s, p, name, attrs, "/>");
    BracketIsElement(s, p, depth);
  }

  lemma LevelCloses(s: string, p: nat, depth: nat, nodes: seq<Node>, name: string, next: nat)
    requires p <= |s| && depth < MAX_DEPTH && ParseOne(s, p, depth) == Close(name, next)
    ensures ParseNodes(s, p, depth, nodes) == ClosedBy(nodes, name, next)
  {
    hide ParseOne;
  }

  lemma ElementAround(s: string, p: nat, depth: nat, n: Node, from: nat, next: nat)
    requires p + 1 < |s| && s[p] == '<' && s[p + 1] != '!' && s[p + 1] != '?' && n.Element?
    requires ParseTag(s, p + 1) == Tag(n.name, n.attrs, Open, from) && At(s, from) != NUL
    requires ParseNodes(s, from, depth + 1, []) == ClosedBy(n.children, n.name, next)
    ensures ParseOne(s, p, depth) == Got(n, next)
  {
    hide ParseTag, ParseOne, ParseNodes;
    BracketIsElement(s, p, depth);
  }

  lemma NotDeclaration(n: Node)
    requires Printable(n)
    ensures !n.Declaration?
  {
  }

  // ----- documents -----

  /** Declarations, then a printable list. */
  ghost predicate PrintableLevel(nodes: seq<Node>)
    decreases |nodes|
  {
    if nodes != [] && nodes[0].Declaration? then Ends(nodes[0].value, "?>") && PrintableLevel(nodes[1..])
    else PrintableList(nodes)
  }

  /** A printable level that neither begins nor ends with plain text. */
  ghost predicate PrintableDocument(nodes: seq<Node>) {
    nodes != [] && !IsPlain(nodes[0]) && !IsPlain(nodes[|nodes| - 1]) && PrintableLevel(nodes)
  }
}
