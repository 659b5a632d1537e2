/** Printing a document and reading it back, with the printer and the reader themselves. */
module XmlDocuments {
  import opened XmlParser
  import opened XmlRoundTrip
  import opened XmlTrees
  import XmlPrinter
  import XmlReader

  /** In either mode the reader makes of the printer's buffer the document with the white space
      beside its texts, or an error if it is nested to the limit. That is the document itself
      for the compact mode, and for the indented one exactly if no text stands beside a gap. */
  method PrintAndRead(nodes: seq<Node>, compact: bool) returns (text: string, back: Document)
    requires PrintableDocument(nodes)
    ensures text == PrintList(compact, nodes, 0, START)
    ensures back == if 1 + NestingOf(nodes) < MAX_DEPTH then Document(Spaced(compact, "", nodes, 0, START))
                    else ParseError
    ensures back == Document(nodes) <==>
              1 + NestingOf(nodes) < MAX_DEPTH && (compact || Kept(nodes, true, true, false))
  {
    hide PrintList, PrintableDocument, NestingOf, Spaced, Kept;
    var printer := new XmlPrinter.Printer(compact);
    printer.PrintChildren(nodes);
    text := printer.buffer;
    PrintedIsParsed(compact, nodes);
    if compact {
      CompactSpaced(nodes, 0, START);
    } else {
      KeptIff(nodes, "", 0, START, false);
    }
    FirstOfDocument(nodes);
    back := XmlReader.ReadDocument(text);
  }
}
