/** What the indented print looks like: in markup without text every tag, comment or other piece
    is on a line of its own, four spaces deeper for each element around it. */
module XmlLayout {
  import opened Basics
  import opened XmlParser
  import opened XmlRoundTrip
  import opened XmlTrees

  /** One line of the print: the level it is on, and what is written there. */
  datatype Line = Line(level: nat, piece: string)

  /** No text anywhere below. */
  predicate TextFree(n: Node)
    decreases n, 0
  {
    match n
    case Element(_, _, children) => TextFreeList(children)
    case Text(_, _) => false
    case _ => true
  }

  predicate TextFreeList(nodes: seq<Node>)
    decreases nodes, 1
  {
    nodes == [] || (TextFree(nodes[0]) && TextFreeList(nodes[1..]))
  }

  /** An element with children has a line for each of its two tags, any other node has one. */
  function LinesOf(n: Node, level: nat): seq<Line>
    decreases n, 0
  {
    if n.Element? && n.children != [] then
      [Line(level, OpenTag(n.name, n.attrs) + ">")] + LinesOfList(n.children, level + 1)
      + [Line(level, "</" + n.name + ">")]
    else [Line(level, PrintNode(n))]
  }

  function LinesOfList(nodes: seq<Node>, level: nat): seq<Line>
    decreases nodes, 1
  {
    if nodes == [] then [] else LinesOf(nodes[0], level) + LinesOfList(nodes[1..], level)
  }

  function Written(lines: seq<Line>): string {
    if lines == [] then "" else Written(lines[..|lines| - 1]) + WrittenLine(lines[|lines| - 1])
  }

  function WrittenLine(line: Line): string {
    "\n" + Spaces(4 * line.level) + line.piece
  }

  function Spaces(n: nat): string {
    seq(n, _ => ' ')
  }

  lemma {:induction false} IndentIsSpaces(level: nat)
    ensures Indent(level) == Spaces(4 * level)
    decreases level
  {
    if level > 0 {
      IndentIsSpaces(level - 1);
      assert Spaces(4 * level) == Spaces(4 * (level - 1)) + "    ";
    }
  }

  lemma WrittenLast(lines: seq<Line>)
    requires lines != []
    ensures Written(lines) == Written(lines[..|lines| - 1]) + WrittenLine(lines[|lines| - 1])
  {
  }

  lemma {:induction false} WrittenJoin(a: seq<Line>, b: seq<Line>)
    ensures Written(a + b) == Written(a) + Written(b)
    decreases |b|
  {
    hide WrittenLine;
    if b == [] {
      assert a + b == a;
    } else {
      var n := |b| - 1;
      WrittenJoin(a, b[..n]);
      WrittenLast(a + b);
      WrittenLast(b);
      hide Written;
      assert (a + b)[..|a + b| - 1] == a + b[..n] && (a + b)[|a + b| - 1] == b[n];
      Regroup(Written(a), Written(b[..n]), WrittenLine(b[n]));
    }
  }

  lemma WrittenOne(line: Line)
    ensures Written([line]) == WrittenLine(line)
  {
    assert [line][..0] == [];
  }

  /** The pen between lines: no text is open and something was written. */
  const BETWEEN: Pen := Pen(-1, false)

  lemma {:induction false} PenStays(n: Node, depth: nat)
    requires TextFree(n)
    ensures After(n, depth, BETWEEN) == BETWEEN
    decreases n, 0
  {
    if n.Element? {
      PenStaysAll(n.children, depth + 1);
    }
  }

  lemma {:induction false} PenStaysAll(nodes: seq<Node>, depth: nat)
    requires TextFreeList(nodes)
    ensures AfterAll(nodes, depth, BETWEEN) == BETWEEN
    decreases nodes, 1
  {
    hide After;
    if nodes != [] {
      PenStays(nodes[0], depth);
      PenStaysAll(nodes[1..], depth);
    }
  }

  /** The body of an element with children, with its gaps as lines. */
  lemma BodyOfOpen(n: Node, level: nat)
    requires n.Element? && n.children != [] && TextFree(n)
    requires PrintList(false, n.children, level + 1, BETWEEN) == Written(LinesOfList(n.children, level + 1))
    ensures "\n" + Spaces(4 * level) + Body(false, n, level, BETWEEN) == Written(LinesOf(n, level))
  {
    var open, close := Line(level, OpenTag(n.name, n.attrs) + ">"), Line(level, "</" + n.name + ">");
    var inner := LinesOfList(n.children, level + 1);
    PenStaysAll(n.children, level + 1);
    IndentIsSpaces(level);
    assert Body(false, n, level, BETWEEN)
        == open.piece + Written(inner) + (("\n" + Spaces(4 * level)) + close.piece);
    hide *;
    WrittenOne(open);
    WrittenOne(close);
    WrittenJoin([open], inner);
    WrittenJoin([open] + inner, [close]);
    LinesOfOpen(n, level);
    LineIs(open);
    LineIs(close);
    Around("\n" + Spaces(4 * level), open.piece, Written(inner), close.piece);
  }

  lemma LinesOfOpen(n: Node, level: nat)
    requires n.Element? && n.children != []
    ensures LinesOf(n, level)
         == [Line(level, OpenTag(n.name, n.attrs) + ">")] + LinesOfList(n.children, level + 1)
            + [Line(level, "</" + n.name + ">")]
  {
  }

  lemma LineIs(line: Line)
    ensures WrittenLine(line) == "\n" + Spaces(4 * line.level) + line.piece
  {
  }

  lemma Around(gap: string, open: string, inner: string, close: string)
    ensures gap + (open + inner + (gap + close)) == (gap + open) + inner + (gap + close)
  {
  }

  /** A node between lines is written as its lines. */
  lemma {:induction false} NodeIsLines(n: Node, level: nat)
    requires TextFree(n)
    ensures "\n" + Spaces(4 * level) + Body(false, n, level, BETWEEN) == Written(LinesOf(n, level))
    decreases n, 0
  {
    if n.Element? && n.children != [] {
      ListIsLines(n.children, level + 1);
      hide PrintList, LinesOfList, Body, LinesOf, Written, TextFreeList;
      BodyOfOpen(n, level);
    } else {
      WrittenOne(Line(level, PrintNode(n)));
    }
  }

  /** For all nodes without text below some element, the indented print is one line for each piece,
      in order, four spaces deeper for each level. */
  lemma {:induction false} ListIsLines(nodes: seq<Node>, level: nat)
    requires TextFreeList(nodes) && level > 0
    ensures PrintList(false, nodes, level, BETWEEN) == Written(LinesOfList(nodes, level))
    decreases nodes, 1
  {
    if nodes != [] {
      var n := nodes[0];
      NodeIsLines(n, level);
      ListIsLines(nodes[1..], level);
      PenStays(n, level);
      IndentIsSpaces(level);
      hide Body, LinesOf, Written, After, TextFree, Indent;
      WrittenJoin(LinesOf(n, level), LinesOfList(nodes[1..], level));
      assert Tail(false, n, level) == "";
      GapIs(n, level);
      assert PrintList(false, nodes, level, BETWEEN)
          == ("\n" + Spaces(4 * level)) + Body(false, n, level, BETWEEN) + ""
             + PrintList(false, nodes[1..], level, BETWEEN);
    }
  }

  lemma GapIs(n: Node, level: nat)
    requires TextFree(n)
    ensures GapBefore(false, n, level, BETWEEN) == "\n" + Spaces(4 * level)
  {
    IndentIsSpaces(level);
  }

  /** So for every document of one element without text: after a first line break, the indented
      print is the lines of the element, and a last line break. */
  lemma DocumentIsLines(n: Node)
    requires n.Element? && TextFree(n)
    ensures "\n" + PrintList(false, [n], 0, START) == Written(LinesOf(n, 0)) + "\n"
  {
    NodeIsLines(n, 0);
    PrintOfOne(n);
    assert Spaces(0) == "" && "\n" + "" == "\n";
    hide *;
    Regroup("\n", Body(false, n, 0, BETWEEN), "\n");
  }

  lemma SameBody(n: Node)
    requires n.Element?
    ensures Body(false, n, 0, START) == Body(false, n, 0, BETWEEN)
  {
    hide PrintList, AfterAll, PrintNode;
  }

  lemma NothingMore(pen: Pen)
    ensures PrintList(false, [], 0, pen) == ""
  {
  }

  lemma PrintOfOne(n: Node)
    requires n.Element?
    ensures PrintList(false, [n], 0, START) == Body(false, n, 0, BETWEEN) + "\n"
  {
    SameBody(n);
    NothingMore(After(n, 0, START));
    hide Body, After;
    assert [n][1..] == [];
    assert GapBefore(false, n, 0, START) == "" && Tail(false, n, 0) == "\n";
    assert PrintList(false, [n], 0, START) == "" + Body(false, n, 0, START) + "\n" + "";
  }

  lemma Regroup(a: string, b: string, c: string)
    ensures a + (b + c) == a + b + c
  {
  }
}
