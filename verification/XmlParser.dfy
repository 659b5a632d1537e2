/** Parsing XML text into a tree of nodes. */
module XmlParser {
  import opened Basics
  import opened XmlStrings

  datatype Attr = Attr(name: string, value: string)

  datatype Node =
    | Element(name: string, attrs: seq<Attr>, children: seq<Node>)
    | Text(value: string, cdata: bool)
    | Comment(value: string)
    | Declaration(value: string)
    | Unknown(value: string)

  const MAX_DEPTH: nat := 100

  const NEWLINES: Flags := Flags(true, false)

  // ----- characters and runs of them -----

  predicate IsWhite(c: char) {
    c == ' ' || 9 <= c as int <= 13
  }

  predicate IsNameStart(c: char) {
    c as int >= 128 || 'a' <= c <= 'z' || 'A' <= c <= 'Z' || c == ':' || c == '_'
  }

  predicate IsNameChar(c: char) {
    IsNameStart(c) || '0' <= c <= '9' || c == '.' || c == '-'
  }

  function SkipWhite(s: string, p: nat): (q: nat)
    requires p <= |s|
    ensures p <= q <= |s| && (q < |s| ==> !IsWhite(s[q])) && forall i | p <= i < q :: IsWhite(s[i])
    decreases |s| - p
  {
    if p < |s| && IsWhite(s[p]) then SkipWhite(s, p + 1) else p
  }

  function NameEnd(s: string, p: nat): (q: nat)
    requires p <= |s|
    ensures p <= q <= |s| && (q < |s| ==> !IsNameChar(s[q])) && forall i | p <= i < q :: IsNameChar(s[i])
    decreases |s| - p
  {
    if p < |s| && IsNameChar(s[p]) then NameEnd(s, p + 1) else p
  }

  /** Where a name that starts at p ends. */
  function ParseName(s: string, p: nat): (r: Option<nat>)
    ensures r.Some? ==> p < r.value <= |s|
  {
    if p < |s| && IsNameStart(s[p]) then Some(NameEnd(s, p + 1)) else None
  }

  /** The first place of the end tag, before the terminator. */
  function FindTag(s: string, p: nat, tag: string): (r: Option<nat>)
    requires tag != []
    ensures r.Some? ==> p <= r.value && StartsWith(s, r.value, tag)
    decreases |s| - p
  {
    if p >= |s| || s[p] == NUL then None
    else if StartsWith(s, p, tag) then Some(p)
    else FindTag(s, p + 1, tag)
  }

  // ----- attributes -----

  datatype OneAttr = NoAttr | GotAttr(attr: Attr, next: nat)

  function ParseAttribute(s: string, p: nat): (r: OneAttr)
    ensures r.GotAttr? ==> p < r.next <= |s|
  {
    var end := ParseName(s, p);
    if end.None? || At(s, end.value) == NUL then NoAttr
    else
      var eq := SkipWhite(s, end.value);
      if At(s, eq) != '=' then NoAttr
      else
        var open := SkipWhite(s, eq + 1);
        if At(s, open) != '\"' && At(s, open) != '\'' then NoAttr
        else
          var close := FindTag(s, open + 1, [s[open]]);
          if close.None? then NoAttr
          else GotAttr(Attr(s[p..end.value], Decode(s[open + 1..close.value], BOTH)), close.value + 1)
  }

  predicate HasAttr(attrs: seq<Attr>, name: string) {
    exists a :: a in attrs && a.name == name
  }

  datatype Attrs = BadAttrs | Attrs(attrs: seq<Attr>, selfClosed: bool, next: nat)

  /** Attributes to the end of the tag; a repeated name is an error. */
  function ParseAttributes(s: string, p: nat, attrs: seq<Attr>): (r: Attrs)
    requires p <= |s|
    ensures r.Attrs? ==> p < r.next <= |s|
    decreases |s| - p
  {
    var q := SkipWhite(s, p);
    if q == |s| then BadAttrs
    else if IsNameStart(s[q]) then
      var a := ParseAttribute(s, q);
      if a.NoAttr? || HasAttr(attrs, a.attr.name) then BadAttrs
      else ParseAttributes(s, a.next, attrs + [a.attr])
    else if s[q] == '>' then Attrs(attrs, false, q + 1)
    else if s[q] == '/' && At(s, q + 1) == '>' then Attrs(attrs, true, q + 2)
    else BadAttrs
  }

  // ----- tags and nodes -----

  datatype Closing = Open | Closed | CloseTag

  datatype Tag = BadTag | Tag(name: string, attrs: seq<Attr>, closing: Closing, next: nat)

  /** A tag after its opening bracket. */
  function ParseTag(s: string, p: nat): (r: Tag)
    requires p <= |s|
    ensures r.Tag? ==> p < r.next <= |s|
  {
    var q := SkipWhite(s, p);
    var from := if At(s, q) == '/' then q + 1 else q;
    var end := ParseName(s, from);
    if end.None? then BadTag
    else
      var a := ParseAttributes(s, end.value, []);
      if a.BadAttrs? then BadTag
      else Tag(s[from..end.value], a.attrs,
               if a.selfClosed then Closed else if from == q then Open else CloseTag, a.next)
  }

  datatype One = Nothing | Got(node: Node, next: nat) | Close(name: string, next: nat) | Bad

  /** Text to an end tag, as a node. */
  function ParseUntil(s: string, p: nat, tag: string, make: string -> Node): (r: One)
    requires p <= |s| && tag != []
    ensures r.Got? ==> p < r.next <= |s|
    ensures !r.Close?
  {
    var i := FindTag(s, p, tag);
    if i.None? then Bad else Got(make(Decode(s[p..i.value], NEWLINES)), i.value + |tag|)
  }

  /** Element text runs to the next bracket, which must not be the last character. */
  function ParseText(s: string, p: nat): (r: One)
    requires p <= |s|
    ensures r.Got? ==> p <= r.next < |s| && s[r.next] == '<'
    ensures !r.Close?
  {
    var i := FindTag(s, p, "<");
    if i.None? || At(s, i.value + 1) == NUL then Bad
    else
      StartsAt(s, i.value, "<", 0);
      Got(Text(Decode(s[p..i.value], BOTH), false), i.value)
  }

  /** What starts at p, after white space; text includes that white space. */
  function ParseOne(s: string, p: nat, depth: nat): (r: One)
    requires p <= |s|
    ensures r.Got? || r.Close? ==> p < r.next <= |s|
    decreases |s| - p, 0
  {
    var q := SkipWhite(s, p);
    if At(s, q) == NUL then Nothing
    else if StartsWith(s, q, "<?") then ParseUntil(s, q + 2, "?>", v => Declaration(v))
    else if StartsWith(s, q, "<!--") then ParseUntil(s, q + 4, "-->", v => Comment(v))
    else if StartsWith(s, q, "<![CDATA[") then ParseUntil(s, q + 9, "]]>", v => Text(v, true))
    else if StartsWith(s, q, "<!") then ParseUntil(s, q + 2, ">", v => Unknown(v))
    else if s[q] != '<' then ParseText(s, p)
    else ParseElement(s, q + 1, depth)
  }

  /** An element after its bracket: a tag, and if it stays open its children and end tag. */
  function ParseElement(s: string, p: nat, depth: nat): (r: One)
    requires p <= |s|
    ensures r.Got? || r.Close? ==> p < r.next <= |s|
    ensures !r.Nothing?
    decreases |s| - p, 2
  {
    var t := ParseTag(s, p);
    if t.BadTag? then Bad
    else if t.closing == CloseTag then Close(t.name, t.next)
    else if t.closing == Closed then Got(Element(t.name, t.attrs, []), t.next)
    else if At(s, t.next) == NUL then Bad
    else
      match ParseNodes(s, t.next, depth + 1, [])
      case Ended(_) => Bad
      case Failed => Bad
      case ClosedBy(children, name, next) => if name == t.name then Got(Element(name, t.attrs, children), next) else Bad
  }

  datatype Nodes = Ended(nodes: seq<Node>) | ClosedBy(nodes: seq<Node>, name: string, next: nat) | Failed

  /** Declarations stand at the beginning of the document. */
  predicate WellLocated(depth: nat, before: seq<Node>) {
    depth == 1 && (before == [] || (before[0].Declaration? && before[|before| - 1].Declaration?))
  }

  /** The nodes of one level, up to the tag that closes it or the end of the text. */
  function ParseNodes(s: string, p: nat, depth: nat, before: seq<Node>): (r: Nodes)
    requires p <= |s|
    ensures r.ClosedBy? ==> p < r.next <= |s|
    decreases |s| - p, 1
  {
    if depth >= MAX_DEPTH then Failed
    else
      match ParseOne(s, p, depth)
      case Nothing => Ended(before)
      case Bad => Failed
      case Close(name, next) => ClosedBy(before, name, next)
      case Got(node, next) =>
        if node.Declaration? && !WellLocated(depth, before) then Failed
        else ParseNodes(s, next, depth, before + [node])
  }

  datatype Document = Document(nodes: seq<Node>) | ParseError

  /** A document; a closing tag at its top level ends it. */
  function ParseDocument(s: string): Document {
    var q := SkipWhite(s, 0);
    var p := if StartsWith(s, q, [0xEF as char, 0xBB as char, 0xBF as char]) then q + 3 else q;
    if At(s, p) == NUL then ParseError
    else
      match ParseNodes(s, p, 1, [])
      case Ended(nodes) => Document(nodes)
      case ClosedBy(nodes, _, _) => Document(nodes)
      case Failed => ParseError
  }
}
