/** The parser's loops over its read position, against the functions of XmlParser. */
module XmlReader {
  import opened Basics
  import opened XmlStrings
  import opened XmlParser

  method SkipSpace(s: string, p: nat) returns (q: nat)
    requires p <= |s|
    ensures q == SkipWhite(s, p)
  {
    q := p;
    while q < |s| && IsWhite(s[q])
      invariant p <= q <= |s| && SkipWhite(s, q) == SkipWhite(s, p)
    {
      q := q + 1;
    }
  }

  method ReadName(s: string, p: nat) returns (r: Option<nat>)
    ensures r == ParseName(s, p)
  {
    if p >= |s| || !IsNameStart(s[p]) {
      return None;
    }
    var q := p + 1;
    while q < |s| && IsNameChar(s[q])
      invariant p < q <= |s| && NameEnd(s, q) == NameEnd(s, p + 1)
    {
      q := q + 1;
    }
    return Some(q);
  }

  method SearchTag(s: string, p: nat, tag: string) returns (r: Option<nat>)
    requires tag != []
    ensures r == FindTag(s, p, tag)
  {
    var q := p;
    while q < |s| && s[q] != NUL
      invariant FindTag(s, q, tag) == FindTag(s, p, tag)
      decreases |s| - q
    {
      if StartsWith(s, q, tag) {
        return Some(q);
      }
      q := q + 1;
    }
    return None;
  }

  method ReadAttribute(s: string, p: nat) returns (r: OneAttr)
    ensures r == ParseAttribute(s, p)
  {
    hide ParseName, SkipWhite, FindTag, Decode;
    var end := ReadName(s, p);
    if end.None? || At(s, end.value) == NUL {
      return NoAttr;
    }
    var q := SkipSpace(s, end.value);
    if At(s, q) != '=' {
      return NoAttr;
    }
    q := SkipSpace(s, q + 1);
    if At(s, q) != '\"' && At(s, q) != '\'' {
      return NoAttr;
    }
    var close := SearchTag(s, q + 1, [s[q]]);
    if close.None? {
      return NoAttr;
    }
    return GotAttr(Attr(s[p..end.value], Decode(s[q + 1..close.value], BOTH)), close.value + 1);
  }

  method FindAttribute(attrs: seq<Attr>, name: string) returns (found: bool)
    ensures found == HasAttr(attrs, name)
  {
    for i := 0 to |attrs|
      invariant forall j | 0 <= j < i :: attrs[j].name != name
    {
      if attrs[i].name == name {
        return true;
      }
    }
    return false;
  }

  method ReadAttributes(s: string, p: nat) returns (r: Attrs)
    requires p <= |s|
    ensures r == ParseAttributes(s, p, [])
  {
    hide ParseAttribute, SkipWhite, HasAttr, IsNameStart;
    var q, attrs := p, [];
    while true
      invariant p <= q <= |s| && ParseAttributes(s, q, attrs) == ParseAttributes(s, p, [])
      decreases |s| - q
    {
      var at := SkipSpace(s, q);
      if at == |s| {
        return BadAttrs;
      }
      if IsNameStart(s[at]) {
        var a := ReadAttribute(s, at);
        if a.NoAttr? {
          return BadAttrs;
        }
        var repeated := FindAttribute(attrs, a.attr.name);
        if repeated {
          return BadAttrs;
        }
        q, attrs := a.next, attrs + [a.attr];
      } else if s[at] == '>' {
        return Attrs(attrs, false, at + 1);
      } else if s[at] == '/' && At(s, at + 1) == '>' {
        return Attrs(attrs, true, at + 2);
      } else {
        return BadAttrs;
      }
    }
  }

  method ReadTag(s: string, p: nat) returns (r: Tag)
    requires p <= |s|
    ensures r == ParseTag(s, p)
  {
    hide ParseAttributes, SkipWhite, ParseName;
    var q := SkipSpace(s, p);
    var closing := Open;
    if At(s, q) == '/' {
      closing := CloseTag;
      q := q + 1;
    }
    var end := ReadName(s, q);
    if end.None? {
      return BadTag;
    }
    var a := ReadAttributes(s, end.value);
    if a.BadAttrs? {
      return BadTag;
    }
    if a.selfClosed {
      closing := Closed;
    }
    return Tag(s[q..end.value], a.attrs, closing, a.next);
  }

  method ReadUntil(s: string, p: nat, tag: string, make: string -> Node) returns (r: One)
    requires p <= |s| && tag != []
    ensures r == ParseUntil(s, p, tag, make)
  {
    hide FindTag, Decode;
    var i := SearchTag(s, p, tag);
    if i.None? {
      return Bad;
    }
    return Got(make(Decode(s[p..i.value], NEWLINES)), i.value + |tag|);
  }

  method ReadText(s: string, p: nat) returns (r: One)
    requires p <= |s|
    ensures r == ParseText(s, p)
  {
    hide FindTag, Decode;
    var i := SearchTag(s, p, "<");
    if i.None? || At(s, i.value + 1) == NUL {
      return Bad;
    }
    return Got(Text(Decode(s[p..i.value], BOTH), false), i.value);
  }

  /** One node: what its first characters say it is, and its content. */
  method ReadOne(s: string, p: nat, depth: nat) returns (r: One)
    requires p <= |s|
    ensures r == ParseOne(s, p, depth)
    decreases |s| - p, 0
  {
    hide ParseTag, ParseUntil, ParseText, SkipWhite, ParseNodes, StartsWith;
    var q := SkipSpace(s, p);
    if At(s, q) == NUL {
      return Nothing;
    }
    if StartsWith(s, q, "<?") {
      StartsSlice(s, q, "<?");
      r := ReadUntil(s, q + 2, "?>", v => Declaration(v));
    } else if StartsWith(s, q, "<!--") {
      StartsSlice(s, q, "<!--");
      r := ReadUntil(s, q + 4, "-->", v => Comment(v));
    } else if StartsWith(s, q, "<![CDATA[") {
      StartsSlice(s, q, "<![CDATA[");
      r := ReadUntil(s, q + 9, "]]>", v => Text(v, true));
    } else if StartsWith(s, q, "<!") {
      StartsSlice(s, q, "<!");
      r := ReadUntil(s, q + 2, ">", v => Unknown(v));
    } else if s[q] != '<' {
      r := ReadText(s, p);
    } else {
      r := ReadElement(s, q + 1, depth);
    }
  }

  /** An element after its bracket, with its children when its tag stays open. */
  method ReadElement(s: string, p: nat, depth: nat) returns (r: One)
    requires p <= |s|
    ensures r == ParseElement(s, p, depth)
    decreases |s| - p, 2
  {
    hide ParseTag, ParseNodes;
    var t := ReadTag(s, p);
    if t.BadTag? {
      return Bad;
    }
    if t.closing == CloseTag {
      return Close(t.name, t.next);
    }
    if t.closing == Closed {
      return Got(Element(t.name, t.attrs, []), t.next);
    }
    if At(s, t.next) == NUL {
      return Bad;
    }
    var inner := ReadNodes(s, t.next, depth + 1);
    if !inner.ClosedBy? || inner.name != t.name {
      return Bad;
    }
    return Got(Element(t.name, t.attrs, inner.nodes), inner.next);
  }

  /** A level of nodes, up to the tag that closes it. */
  method ReadNodes(s: string, p: nat, depth: nat) returns (r: Nodes)
    requires p <= |s|
    ensures r == ParseNodes(s, p, depth, [])
    decreases |s| - p, 1
  {
    hide ParseOne;
    if depth >= MAX_DEPTH {
      return Failed;
    }
    var q, nodes := p, [];
    while true
      invariant p <= q <= |s| && ParseNodes(s, q, depth, nodes) == ParseNodes(s, p, depth, [])
      decreases |s| - q
    {
      var one := ReadOne(s, q, depth);
      match one
      case Nothing => return Ended(nodes);
      case Bad => return Failed;
      case Close(name, next) => return ClosedBy(nodes, name, next);
      case Got(node, next) =>
        if node.Declaration? && !WellLocated(depth, nodes) {
          return Failed;
        }
        q, nodes := next, nodes + [node];
    }
  }

  method ReadDocument(s: string) returns (r: Document)
    ensures r == ParseDocument(s)
  {
    hide ParseNodes, SkipWhite;
    var p := SkipSpace(s, 0);
    if StartsWith(s, p, [0xEF as char, 0xBB as char, 0xBF as char]) {
      p := p + 3;
    }
    if At(s, p) == NUL {
      return ParseError;
    }
    var nodes := ReadNodes(s, p, 1);
    return if nodes.Failed? then ParseError else Document(nodes.nodes);
  }
}
