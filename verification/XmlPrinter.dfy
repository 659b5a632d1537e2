/** The printer, which appends to a buffer and remembers whether the last tag is still open. */
module XmlPrinter {
  import opened Basics
  import opened XmlStrings
  import opened XmlParser
  import opened XmlRoundTrip
  import opened XmlTrees

  const ENTITY_RANGE: nat := 64

  lemma EscapePush(v: string, n: nat, restricted: bool)
    requires n < |v|
    ensures Escape(v[..n + 1], restricted) == Escape(v[..n], restricted) + EscapeChar(v[n], restricted)
  {
    assert v[..n + 1][..n] == v[..n];
  }

  /** Copying unflagged characters in runs is copying them one by one. */
  lemma {:induction false} EscapeRun(v: string, p: nat, q: nat, restricted: bool)
    requires p <= q <= |v| && forall i | p <= i < q :: !IsFlagged(v[i], restricted)
    ensures Escape(v[..q], restricted) == Escape(v[..p], restricted) + v[p..q]
    decreases q - p
  {
    hide Escape, EscapeChar;
    if p < q {
      EscapeRun(v, p, q - 1, restricted);
      EscapePush(v, q - 1, restricted);
      EscapeNothing(v[q - 1], restricted);
      assert v[p..q] == v[p..q - 1] + [v[q - 1]];
    } else {
      assert v[p..q] == "";
    }
  }

  lemma EscapeNothing(c: char, restricted: bool)
    requires !IsFlagged(c, restricted)
    ensures EscapeChar(c, restricted) == [c]
  {
  }

  /** Where the table has a flagged character. */
  ghost function EntityAt(c: char): (k: nat)
    requires IsFlagged(c, false)
    ensures k < |ENTITIES| && ENTITIES[k] == Entity(PatternOf(c), c)
  {
    if c == '\"' then 0 else if c == '&' then 1 else if c == '\'' then 2 else if c == '<' then 3 else 4
  }

  lemma FlaggedAreLow(c: char, restricted: bool)
    ensures IsFlagged(c, restricted) ==> 0 < c as int < ENTITY_RANGE
  {
  }

  class Printer {
    const compact: bool
    var buffer: string
    var justOpened: bool
    var stack: seq<string>
    var first: bool
    var depth: int
    var textDepth: int

    constructor (compact: bool)
      ensures this.compact == compact && buffer == "" && !justOpened && stack == []
      ensures first && depth == 0 && textDepth == -1
    {
      this.compact := compact;
      buffer, justOpened, stack, first, depth, textDepth := "", false, [], true, 0, -1;
    }

    method Write(t: string)
      modifies this`buffer
      ensures buffer == old(buffer) + t
    {
      buffer := buffer + t;
    }

    method PrintSpace(count: int)
      modifies this`buffer
      ensures buffer == old(buffer) + Indent(count)
    {
      for i := 0 to if count < 0 then 0 else count
        invariant buffer == old(buffer) + Indent(i)
      {
        Write("    ");
      }
    }

    method PrintGap()
      modifies this`buffer
      ensures buffer == old(buffer) + Gap(compact, Pen(textDepth, first), depth)
    {
      hide Indent;
      if textDepth < 0 && !first && !compact {
        Write("\n");
      }
      if !compact {
        PrintSpace(depth);
      }
    }

    /** The entity of a flagged character, found in the table. */
    method PrintEntity(c: char, restricted: bool)
      requires IsFlagged(c, restricted)
      modifies this`buffer
      ensures buffer == old(buffer) + EscapeChar(c, restricted)
    {
      ghost var k := EntityAt(c);
      for i := 0 to |ENTITIES|
        invariant buffer == old(buffer) && i <= k
      {
        if ENTITIES[i].value == c {
          SameValueSameEntity(i, k);
          Write("&");
          Write(ENTITIES[i].pattern);
          Write(";");
          return;
        }
      }
      assert false;
    }

    /** Runs between flagged characters are copied whole. */
    method PrintString(v: string, restricted: bool)
      modifies this`buffer
      ensures buffer == old(buffer) + Escape(v, restricted)
    {
      hide Escape, EscapeChar;
      var p, q := 0, 0;
      NothingEscaped(v, restricted);
      while q < |v|
        invariant p <= q <= |v| && forall i | p <= i < q :: !IsFlagged(v[i], restricted)
        invariant buffer == old(buffer) + Escape(v[..p], restricted)
      {
        FlaggedAreLow(v[q], restricted);
        if 0 < v[q] as int < ENTITY_RANGE && IsFlagged(v[q], restricted) {
          EscapeRun(v, p, q, restricted);
          EscapePush(v, q, restricted);
          Write(v[p..q]);
          PrintEntity(v[q], restricted);
          p := q + 1;
        }
        q := q + 1;
      }
      EscapeRun(v, p, q, restricted);
      assert v[..q] == v;
      Write(v[p..q]);
    }

    method Seal()
      modifies this`buffer, this`justOpened
      ensures buffer == old(buffer) + (if old(justOpened) then ">" else "") && !justOpened
    {
      if justOpened {
        justOpened := false;
        Write(">");
      }
    }

    method OpenElement(name: string)
      modifies this
      ensures buffer == old(buffer) + (if old(justOpened) then ">" else "")
                        + Gap(compact, Pen(old(textDepth), old(first)), old(depth)) + "<" + name
      ensures justOpened && stack == old(stack) + [name] && depth == old(depth) + 1
      ensures !first && textDepth == old(textDepth)
    {
      hide Gap;
      Seal();
      stack := stack + [name];
      PrintGap();
      Write("<");
      Write(name);
      justOpened, first, depth := true, false, depth + 1;
    }

    method PushAttribute(a: Attr)
      modifies this`buffer
      ensures buffer == old(buffer) + PrintAttr(a)
    {
      Write(" ");
      Write(a.name);
      Write("=\"");
      PrintString(a.value, false);
      Write("\"");
    }

    method PushAttributes(attrs: seq<Attr>)
      modifies this`buffer
      ensures buffer == old(buffer) + PrintAttrs(attrs)
    {
      hide PrintAttr;
      for i := 0 to |attrs|
        invariant buffer + PrintAttrs(attrs[i..]) == old(buffer) + PrintAttrs(attrs)
      {
        assert attrs[i..][0] == attrs[i] && attrs[i..][1..] == attrs[i + 1..];
        PushAttribute(attrs[i]);
      }
    }

    /** The end of an element: short if nothing was put in it. */
    method PrintEnd(name: string)
      modifies this`buffer
      ensures buffer == old(buffer) + if justOpened then "/>"
                                      else CloseGap(compact, Pen(textDepth, first), depth) + ("</" + name + ">")
    {
      hide Indent;
      if justOpened {
        Write("/>");
      } else {
        if textDepth < 0 && !compact {
          Write("\n");
          PrintSpace(depth);
        }
        Write("</");
        Write(name);
        Write(">");
      }
    }

    method CloseElement()
      requires stack != []
      modifies this
      ensures buffer == old(buffer)
                        + (if old(justOpened) then "/>"
                           else CloseGap(compact, Pen(old(textDepth), old(first)), depth)
                                + ("</" + old(stack)[|old(stack)| - 1] + ">"))
                        + if depth == 0 && !compact then "\n" else ""
      ensures !justOpened && stack == old(stack)[..|old(stack)| - 1] && depth == old(depth) - 1
      ensures first == old(first) && textDepth == if old(textDepth) == depth then -1 else old(textDepth)
    {
      hide CloseGap;
      depth := depth - 1;
      var name := stack[|stack| - 1];
      stack := stack[..|stack| - 1];
      PrintEnd(name);
      if textDepth == depth {
        textDepth := -1;
      }
      if depth == 0 && !compact {
        Write("\n");
      }
      justOpened := false;
    }

    method PushText(value: string, cdata: bool)
      modifies this
      ensures buffer == old(buffer) + (if old(justOpened) then ">" else "") + XmlRoundTrip.PrintNode(Text(value, cdata))
      ensures !justOpened && stack == old(stack) && depth == old(depth)
      ensures first == old(first) && textDepth == depth - 1
    {
      textDepth := depth - 1;
      Seal();
      if cdata {
        Write("<![CDATA[");
        Write(value);
        Write("]]>");
      } else {
        PrintString(value, true);
      }
    }

    method WriteMarkup(open: string, value: string, close: string)
      modifies this`buffer
      ensures buffer == old(buffer) + (open + value + close)
    {
      Write(open);
      Write(value);
      Write(close);
    }

    /** A comment, declaration or other markup: on a line of its own, unless a text is open around
        it or it is the first. */
    method PushMarkup(open: string, value: string, close: string)
      modifies this
      ensures buffer == old(buffer) + (if old(justOpened) then ">" else "")
                        + (if old(textDepth) < 0 && !old(first)
                           then Gap(compact, Pen(old(textDepth), old(first)), old(depth)) else "")
                        + (open + value + close)
      ensures !justOpened && stack == old(stack) && depth == old(depth)
      ensures !first && textDepth == old(textDepth)
    {
      hide Gap;
      Seal();
      if textDepth < 0 && !first && !compact {
        PrintGap();
      }
      NoCompactGap(Pen(textDepth, first), depth);
      first := false;
      WriteMarkup(open, value, close);
    }

    /** Visits a tree. The buffer grows by the print of the tree in the printer's mode, after the
        bracket that an open tag before it still needs, and the pen moves as it should. */
    method PrintNode(n: Node)
      modifies this
      ensures buffer == old(buffer) + (if old(justOpened) then ">" else "")
                        + Print(compact, n, old(depth), Pen(old(textDepth), old(first)))
      ensures Pen(textDepth, first) == After(n, old(depth), Pen(old(textDepth), old(first)))
      ensures !justOpened && stack == old(stack) && depth == old(depth)
      decreases n, 0
    {
      hide Gap;
      match n
      case Text(value, cdata) => PushText(value, cdata);
      case Comment(value) => PushMarkup("<!--", value, "-->");
      case Declaration(value) => PushMarkup("<?", value, "?>");
      case Unknown(value) => PushMarkup("<!", value, ">");
      case Element(name, attrs, children) => PrintElement(name, attrs, children);
    }

    method PrintElement(name: string, attrs: seq<Attr>, children: seq<Node>)
      modifies this
      ensures buffer == old(buffer) + (if old(justOpened) then ">" else "")
                        + Print(compact, Element(name, attrs, children), old(depth), Pen(old(textDepth), old(first)))
      ensures Pen(textDepth, first)
           == After(Element(name, attrs, children), old(depth), Pen(old(textDepth), old(first)))
      ensures !justOpened && stack == old(stack) && depth == old(depth)
      decreases children, 2
    {
      hide PrintAttrs, PrintList, Gap, CloseGap, Print, AfterAll;
      ghost var sealed, pen, d := buffer + (if justOpened then ">" else ""), Pen(textDepth, first), depth;
      ghost var inner, gap := Pen(textDepth, false), Gap(compact, pen, d);
      OpenElement(name);
      PushAttributes(attrs);
      OpenIs(sealed, gap, name, attrs);
      PrintChildren(children);
      NoNodes(compact, d + 1, inner);
      NeverFirstAgain(children, d + 1, inner);
      CloseElement();
      ElementIs(sealed, compact, name, attrs, children, d, pen);
    }

    method PrintChildren(nodes: seq<Node>)
      modifies this
      ensures buffer == old(buffer) + (if old(justOpened) && nodes != [] then ">" else "")
                        + PrintList(compact, nodes, old(depth), Pen(old(textDepth), old(first)))
      ensures Pen(textDepth, first) == AfterAll(nodes, old(depth), Pen(old(textDepth), old(first)))
      ensures justOpened == (old(justOpened) && nodes == []) && stack == old(stack) && depth == old(depth)
      decreases nodes, 1
    {
      hide Print, After, PrintList, AfterAll;
      ghost var pen := Pen(textDepth, first);
      NoNodes(compact, depth, pen);
      if nodes != [] {
        ListIs(compact, nodes, depth, pen, buffer + if justOpened then ">" else "");
        PrintNode(nodes[0]);
        PrintChildren(nodes[1..]);
      }
    }
  }

  /** A node with what stands before and after it. */
  function Print(compact: bool, n: Node, depth: int, pen: Pen): string {
    GapBefore(compact, n, depth, pen) + Body(compact, n, depth, pen) + Tail(compact, n, depth)
  }

  lemma ListIs(compact: bool, nodes: seq<Node>, depth: int, pen: Pen, before: string)
    requires nodes != []
    ensures var rest, pen' := nodes[1..], After(nodes[0], depth, pen);
      && AfterAll(nodes, depth, pen) == AfterAll(rest, depth, pen')
      && before + PrintList(compact, nodes, depth, pen)
         == before + Print(compact, nodes[0], depth, pen) + PrintList(compact, rest, depth, pen')
  {
    hide GapBefore, Body, Tail, After;
  }

  lemma {:induction false} NeverFirstAgain(nodes: seq<Node>, depth: int, pen: Pen)
    requires !pen.first
    ensures !AfterAll(nodes, depth, pen).first
    decreases |nodes|
  {
    hide After;
    if nodes != [] {
      PenAfter(nodes[0], depth, pen);
      NeverFirstAgain(nodes[1..], depth, After(nodes[0], depth, pen));
    }
  }

  lemma NoCompactGap(pen: Pen, depth: int)
    ensures Gap(true, pen, depth) == ""
  {
  }

  lemma OpenIs(sealed: string, gap: string, name: string, attrs: seq<Attr>)
    ensures sealed + gap + "<" + name + PrintAttrs(attrs) == sealed + gap + OpenTag(name, attrs)
  {
    hide PrintAttrs;
  }

  lemma ElementIs(
      sealed: string, compact: bool, name: string, attrs: seq<Attr>, children: seq<Node>, depth: int, pen: Pen)
    ensures var n, inner := Element(name, attrs, children), Pen(pen.textDepth, false);
      var list := PrintList(compact, children, depth + 1, inner);
      sealed + Print(compact, n, depth, pen)
      == sealed + Gap(compact, pen, depth) + OpenTag(name, attrs)
         + (if children != [] then ">" else "") + list
         + (if children == [] then "/>"
            else CloseGap(compact, AfterAll(children, depth + 1, inner), depth) + ("</" + name + ">"))
         + if depth == 0 && !compact then "\n" else ""
  {
    hide PrintList, Gap, CloseGap, AfterAll, OpenTag;
    NoNodes(compact, depth + 1, Pen(pen.textDepth, false));
  }

  lemma SameValueSameEntity(i: nat, k: nat)
    requires i < |ENTITIES| && k < |ENTITIES| && ENTITIES[i].value == ENTITIES[k].value
    ensures i == k
  {
  }

  lemma NoNodes(compact: bool, depth: int, pen: Pen)
    ensures PrintList(compact, [], depth, pen) == "" && AfterAll([], depth, pen) == pen
  {
  }

  lemma NothingEscaped(v: string, restricted: bool)
    ensures Escape(v[..0], restricted) == ""
  {
  }
}
