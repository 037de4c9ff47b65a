/** How the printer spells things, where the parser would take more than one spelling; and the character classes of
    the parser as lists. */
module XmlSpelling {
  import opened XmlChars
  import opened XmlPrint
  import opened XmlReferences
  import opened XmlRoundTrip

  // ---------------------------------------------------------------------------------------------
  // Classes

  const BLANKS := " \n\r\t"

  /** What each class leaves out. */
  lemma ClassesAre(c: char, quote: char)
    ensures Whitespace.Test(c) <==> c in BLANKS
    ensures NodeName.Test(c) <==> c !in BLANKS + "/>?\0"
    ensures AttributeName.Test(c) <==> c !in BLANKS + "/<>=?!\0"
    ensures Text.Test(c) <==> c !in "<\0"
    ensures TextPureNoWs.Test(c) <==> c !in "<&\0"
    ensures TextPureWithWs.Test(c) <==> c !in BLANKS + "<&\0"
    ensures AttributeData(quote).Test(c) <==> c !in [quote, NUL]
    ensures AttributeDataPure(quote).Test(c) <==> c !in [quote, '&', NUL]
  {
    InBoth(c, BLANKS, "/>?\0");
    InBoth(c, BLANKS, "/<>=?!\0");
    InBoth(c, BLANKS, "<&\0");
  }

  lemma InBoth(c: char, a: string, b: string)
    ensures c in a + b <==> c in a || c in b
  {
  }

  // ---------------------------------------------------------------------------------------------
  // Escapes

  const SPECIAL := "<>'\"&"

  /** Escaped text holds none of the brackets and quotes but the one to be kept, ampersands only if the value has
      something to escape, and any other character exactly as the value does. */
  lemma {:induction false} EscapeHides(v: string, noexpand: char, c: char)
    requires noexpand in "'\"\0"
    ensures c in "<>'\"" && c != noexpand ==> c !in Escape(v, noexpand)
    ensures c == noexpand ==> (c in Escape(v, noexpand) <==> c in v)
    ensures '&' in Escape(v, noexpand) <==> exists d :: d in v && d in SPECIAL && d != noexpand
    decreases v
  {
    hide Escape;
    EscapeOne(v, noexpand);
    if v != "" {
      EscapeHides(v[1..], noexpand, c);
      CharHides(v[0], noexpand, c);
      assert forall d :: d in v <==> d == v[0] || d in v[1..];
      InBoth(c, EscapeChar(v[0], noexpand), Escape(v[1..], noexpand));
      InBoth('&', EscapeChar(v[0], noexpand), Escape(v[1..], noexpand));
    }
  }

  lemma EscapeOne(v: string, noexpand: char)
    ensures Escape(v, noexpand) == if v == "" then "" else EscapeChar(v[0], noexpand) + Escape(v[1..], noexpand)
  {
  }

  lemma CharHides(d: char, noexpand: char, c: char)
    requires noexpand in "'\"\0"
    ensures c in "<>'\"" && c != noexpand ==> c !in EscapeChar(d, noexpand)
    ensures c == noexpand ==> (c in EscapeChar(d, noexpand) <==> c == d)
    ensures '&' in EscapeChar(d, noexpand) <==> d in SPECIAL && d != noexpand
  {
  }

  /** What needs no escape stays as it is. */
  lemma {:induction false} EscapeKeeps(v: string, noexpand: char)
    requires forall c | c in v :: c !in SPECIAL || c == noexpand
    ensures Escape(v, noexpand) == v
  {
    hide Escape;
    EscapeOne(v, noexpand);
    if v != "" {
      assert v[0] in v && forall c | c in v[1..] :: c in v;
      EscapeKeeps(v[1..], noexpand);
      assert EscapeChar(v[0], noexpand) == [v[0]];
    }
  }

  /** The quote around an attribute value is double unless the value holds a double quote; double quotes are then never
      escaped, and single ones only in a value that holds both. */
  lemma QuotesOf(value: string)
    ensures var quote, text := QuoteFor(value), Escape(value, KeptIn(QuoteFor(value)));
      && (quote == if '"' in value then '\'' else '"')
      && ('"' in text <==> '"' in value)
      && ('\'' in text <==> '\'' in value && '"' !in value)
  {
    EscapeHides(value, KeptIn(QuoteFor(value)), '"');
    EscapeHides(value, KeptIn(QuoteFor(value)), '\'');
    if '"' in value { assert KeptIn(QuoteFor(value)) == '"'; }
  }

  // ---------------------------------------------------------------------------------------------
  // Tags

  /** An element is closed at once exactly if it has neither value nor children. */
  lemma ClosedAtOnce(n: Node)
    requires n.kind == Element && IsName(n.name, NodeName)
    ensures |PrintNode(n)| >= 2
    ensures PrintNode(n)[|PrintNode(n)| - 2..] == "/>" <==> n.value == "" && n.children == []
  {
    hide PrintInner, PrintAttributes;
    var text, last := PrintNode(n), n.name[|n.name| - 1];
    assert text == PrintElement(n);
    if Childless(n) {
      var front := "<" + (n.name + PrintAttributes(n.attributes));
      assert text == "<" + (n.name + (PrintAttributes(n.attributes) + "/>"));
      assert text == front + "/>";
      EndsWith(text, front, "/>");
    } else {
      var front := "<" + (n.name + (PrintAttributes(n.attributes) + (">" + (PrintInner(n) + ("</" + n.name[..|n.name| - 1])))));
      assert text == "<" + (n.name + (PrintAttributes(n.attributes) + (">" + (PrintInner(n) + ("</" + (n.name + ">"))))));
      assert n.name == n.name[..|n.name| - 1] + [last];
      assert text == front + ([last] + ">");
      EndsWith(text, front, [last] + ">");
      assert NodeName.Test(last) && ([last] + ">")[0] != "/>"[0];
    }
  }

  lemma EndsWith(text: string, front: string, end: string)
    requires text == front + end
    ensures text[|text| - |end|..] == end
  {
  }

  /** The marks of the other kinds of nodes, and what separates their parts. */
  lemma Marks()
    ensures PrintNode(Node(Pi, "a", "", [], [])) == "<?a ?>" && PrintNode(Node(Pi, "a", "b", [], [])) == "<?a b?>"
    ensures PrintNode(Node(Doctype, "", "a", [], [])) == "<!DOCTYPE a>"
    ensures PrintNode(Node(Comment, "", " a ", [], [])) == "<!-- a -->"
    ensures PrintNode(Node(Cdata, "", "a", [], [])) == "<![CDATA[a]]>"
  {
  }

  /** What separates the parts of a tag, where nothing needs an escape. */
  lemma DeclarationTag(a: Attribute)
    requires forall c | c in a.value :: c !in SPECIAL
    ensures PrintNode(Node(Declaration, "", "", [a], [])) == "<?xml " + a.name + "=\"" + a.value + "\"?>"
  {
    hide PrintAttributes;
    OneAttribute(a);
    assert PrintNode(Node(Declaration, "", "", [a], [])) == "<?xml" + (PrintAttributes([a]) + "?>");
  }

  lemma ElementTags(name: string, a: Attribute, text: string)
    requires (forall c | c in a.value :: c !in SPECIAL) && forall c | c in text :: c !in SPECIAL
    ensures PrintNode(Node(Element, name, "", [a], [Node(Data, "", text, [], [])]))
         == "<" + name + " " + a.name + "=\"" + a.value + "\">" + text + "</" + name + ">"
  {
    hide PrintAttributes, PrintInner;
    var n := Node(Element, name, "", [a], [Node(Data, "", text, [], [])]);
    OneAttribute(a);
    OneText(n, text);
    assert PrintNode(n) == PrintElement(n);
  }

  lemma OneAttribute(a: Attribute)
    requires forall c | c in a.value :: c !in SPECIAL
    ensures PrintAttributes([a]) == " " + a.name + "=\"" + a.value + "\""
  {
    EscapeKeeps(a.value, '\'');
    assert PrintAttributes([a]) == PrintAttribute(a) + PrintAttributes([]);
  }

  lemma OneText(n: Node, text: string)
    requires n.children == [Node(Data, "", text, [], [])] && forall c | c in text :: c !in SPECIAL
    ensures PrintInner(n) == text
  {
    EscapeKeeps(text, NUL);
  }
}
