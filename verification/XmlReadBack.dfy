/** The printer and the in-place parser together. */
module XmlReadBack {
  import opened XmlChars
  import opened XmlPrint
  import opened XmlRoundTrip
  import XmlParser

  /** Printing a normal document into a fresh buffer and parsing it there leaves a tree of spans that reads as
      the document, up to the last character. */
  method PrintThenParse(d: Node, f: Flags, terminate: bool) returns (buf: array<char>, r: Outcome<XmlParser.SpanNode>)
    requires Faithful(f) && NormalDocument(d, f)
    ensures r.Ok? && r.text == buf.Length - 1
    ensures XmlParser.HoldsNode(r.value, d, buf[..], 0, buf.Length, terminate)
  {
    hide Normal, PrintNode, XmlParser.HoldsNode;
    var text := WriteNode(d, "");
    assert "" + PrintNode(d) == PrintNode(d);
    buf := new char[|text| + 1](i requires 0 <= i <= |text| => if i < |text| then text[i] else NUL);
    assert buf[..] == text + [NUL];
    ParsePrint(d, f);
    r := XmlParser.Parse(buf, f, terminate);
  }
}
