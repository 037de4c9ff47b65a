/** The printer with indenting off: the text of a tree, and the methods that write it out. */
module XmlPrint {
  import opened XmlChars
  import opened XmlReferences

  /** The quote put around an attribute value. */
  function QuoteFor(value: string): char {
    if '"' in value then '\'' else '"'
  }

  /** The character left unescaped inside that quote. */
  function KeptIn(quote: char): char {
    if quote == '"' then '\'' else '"'
  }

  function PrintAttribute(a: Attribute): string {
    var quote := QuoteFor(a.value);
    " " + (a.name + ("=" + ([quote] + (Escape(a.value, KeptIn(quote)) + [quote]))))
  }

  function PrintAttributes(attributes: seq<Attribute>): string {
    if attributes == [] then "" else PrintAttribute(attributes[0]) + PrintAttributes(attributes[1..])
  }

  function PrintNode(n: Node): string
    decreases n, 1
  {
    match n.kind
    case Document => PrintChildren(n.children)
    case Element => PrintElement(n)
    case Data => Escape(n.value, NUL)
    case Cdata => "<![CDATA[" + (n.value + "]]>")
    case Declaration => "<?xml" + (PrintAttributes(n.attributes) + "?>")
    case Comment => "<!--" + (n.value + "-->")
    case Doctype => "<!DOCTYPE " + (n.value + ">")
    case Pi => "<?" + (n.name + (" " + (n.value + "?>")))
  }

  function PrintChildren(children: seq<Node>): string
    decreases children
  {
    if children == [] then "" else PrintNode(children[0]) + PrintChildren(children[1..])
  }

  predicate Childless(n: Node) { n.value == "" && n.children == [] }

  /** What stands between an element's tags. */
  function PrintInner(n: Node): string
    decreases n, 0, 0
  {
    if n.children == [] then Escape(n.value, NUL)
    else if |n.children| == 1 && n.children[0].kind == Data then Escape(n.children[0].value, NUL)
    else PrintChildren(n.children)
  }

  function PrintElement(n: Node): string
    decreases n, 0, 1
  {
    "<" + (n.name + (PrintAttributes(n.attributes) +
                     (if Childless(n) then "/>" else ">" + (PrintInner(n) + ("</" + (n.name + ">"))))))
  }

  // ---------------------------------------------------------------------------------------------
  // Writing

  method CopyChars(source: string, out0: string) returns (out: string)
    ensures out == out0 + source
  {
    out := out0;
    var begin := 0;
    while begin != |source|
      invariant 0 <= begin <= |source|
      invariant out == out0 + source[..begin]
    {
      out := out + [source[begin]];
      begin := begin + 1;
    }
    assert source[..begin] == source;
  }

  lemma EscapeSnoc(v: string, k: nat, noexpand: char)
    requires k < |v|
    ensures Escape(v[..k + 1], noexpand) == Escape(v[..k], noexpand) + EscapeChar(v[k], noexpand)
  {
    hide EscapeChar;
    if k == 0 {
      assert v[..1][1..] == "";
      EscapeNothing(noexpand);
    } else {
      EscapeSnoc(v[1..], k - 1, noexpand);
      assert v[..k + 1][1..] == v[1..][..k];
      assert v[..k][1..] == v[1..][..k - 1];
      assert v[1..][k - 1] == v[k];
      Regroup(EscapeChar(v[0], noexpand), Escape(v[1..][..k - 1], noexpand), EscapeChar(v[k], noexpand));
    }
  }

  lemma EscapeNothing(noexpand: char)
    ensures Escape("", noexpand) == ""
  {
  }

  lemma Regroup(a: string, b: string, c: string)
    ensures a + b + c == a + (b + c)
  {
  }

  /** Writes a value with its special characters as references. */
  method CopyAndExpandChars(source: string, noexpand: char, out0: string) returns (out: string)
    ensures out == out0 + Escape(source, noexpand)
  {
    hide Escape;
    EscapeNothing(noexpand);
    out := out0;
    var begin := 0;
    while begin != |source|
      invariant 0 <= begin <= |source|
      invariant out == out0 + Escape(source[..begin], noexpand)
    {
      EscapeSnoc(source, begin, noexpand);
      ghost var before := out;
      if source[begin] == noexpand {
        out := out + [source[begin]];
      } else {
        match source[begin] {
          case '<' => out := out + "&lt;";
          case '>' => out := out + "&gt;";
          case '\'' => out := out + "&apos;";
          case '"' => out := out + "&quot;";
          case '&' => out := out + "&amp;";
          case _ => out := out + [source[begin]];
        }
      }
      assert out == before + EscapeChar(source[begin], noexpand);
      Regroup(out0, Escape(source[..begin], noexpand), EscapeChar(source[begin], noexpand));
      begin := begin + 1;
    }
    assert source[..begin] == source;
  }

  method FindChar(source: string, ch: char) returns (found: bool)
    ensures found <==> ch in source
  {
    var begin := 0;
    while begin != |source|
      invariant 0 <= begin <= |source|
      invariant ch !in source[..begin]
    {
      if source[begin] == ch { return true; }
      begin := begin + 1;
    }
    return false;
  }

  lemma PrintAttributesSnoc(a: seq<Attribute>, k: nat)
    requires k < |a|
    ensures PrintAttributes(a[..k + 1]) == PrintAttributes(a[..k]) + PrintAttribute(a[k])
  {
    if k == 0 {
      assert a[..1][1..] == [];
      assert PrintAttributes(a[..1][1..]) == "";
    } else {
      PrintAttributesSnoc(a[1..], k - 1);
      assert a[..k + 1][1..] == a[1..][..k];
      assert a[..k][1..] == a[1..][..k - 1];
      assert a[1..][k - 1] == a[k];
    }
  }

  method WriteAttribute(a: Attribute, out0: string) returns (out: string)
    ensures out == out0 + PrintAttribute(a)
  {
    hide Escape;
    out := CopyChars(a.name, out0 + " ");
    out := out + "=";
    var double := FindChar(a.value, '"');
    if double {
      out := CopyAndExpandChars(a.value, '"', out + "'");
      out := out + "'";
    } else {
      out := CopyAndExpandChars(a.value, '\'', out + "\"");
      out := out + "\"";
    }
  }

  method WriteAttributes(attributes: seq<Attribute>, out0: string) returns (out: string)
    ensures out == out0 + PrintAttributes(attributes)
  {
    hide PrintAttribute;
    out := out0;
    var k := 0;
    while k < |attributes|
      invariant 0 <= k <= |attributes|
      invariant out == out0 + PrintAttributes(attributes[..k])
    {
      PrintAttributesSnoc(attributes, k);
      out := WriteAttribute(attributes[k], out);
      k := k + 1;
    }
    assert attributes[..k] == attributes;
  }

  lemma PrintChildrenSnoc(c: seq<Node>, k: nat)
    requires k < |c|
    ensures PrintChildren(c[..k + 1]) == PrintChildren(c[..k]) + PrintNode(c[k])
  {
    hide PrintNode;
    if k == 0 {
      assert c[..1][1..] == [];
      assert PrintChildren(c[..1][1..]) == "";
    } else {
      PrintChildrenSnoc(c[1..], k - 1);
      assert c[..k + 1][1..] == c[1..][..k];
      assert c[..k][1..] == c[1..][..k - 1];
      assert c[1..][k - 1] == c[k];
    }
  }

  /** Writes any node. */
  method WriteNode(n: Node, out0: string) returns (out: string)
    ensures out == out0 + PrintNode(n)
    decreases n, 1
  {
    match n.kind {
      case Document => out := WriteChildren(n.children, out0);
      case Element => out := WriteElement(n, out0);
      case Data => out := CopyAndExpandChars(n.value, NUL, out0);
      case Cdata =>
        out := CopyChars(n.value, out0 + "<![CDATA[");
        out := out + "]]>";
      case Declaration =>
        out := WriteAttributes(n.attributes, out0 + "<?xml");
        out := out + "?>";
      case Comment =>
        out := CopyChars(n.value, out0 + "<!--");
        out := out + "-->";
      case Doctype =>
        out := CopyChars(n.value, out0 + "<!DOCTYPE ");
        out := out + ">";
      case Pi =>
        out := CopyChars(n.name, out0 + "<?");
        out := CopyChars(n.value, out + " ");
        out := out + "?>";
    }
  }

  method WriteChildren(children: seq<Node>, out0: string) returns (out: string)
    ensures out == out0 + PrintChildren(children)
    decreases children
  {
    hide PrintNode;
    out := out0;
    var k := 0;
    while k < |children|
      invariant 0 <= k <= |children|
      invariant out == out0 + PrintChildren(children[..k])
    {
      PrintChildrenSnoc(children, k);
      out := WriteNode(children[k], out);
      k := k + 1;
    }
    assert children[..k] == children;
  }

  /** Writes what stands between an element's tags. */
  method WriteInner(n: Node, out0: string) returns (out: string)
    ensures out == out0 + PrintInner(n)
    decreases n, 0, 0
  {
    hide PrintChildren, Escape;
    if n.children == [] {
      out := CopyAndExpandChars(n.value, NUL, out0);
    } else if |n.children| == 1 && n.children[0].kind == Data {
      out := CopyAndExpandChars(n.children[0].value, NUL, out0);
    } else {
      out := WriteChildren(n.children, out0);
    }
  }

  method WriteElement(n: Node, out0: string) returns (out: string)
    ensures out == out0 + PrintElement(n)
    decreases n, 0, 1
  {
    hide PrintAttributes, PrintInner;
    out := CopyChars(n.name, out0 + "<");
    out := WriteAttributes(n.attributes, out);
    if n.value == "" && n.children == [] {
      out := out + "/>";
    } else {
      out := WriteInner(n, out + ">");
      out := CopyChars(n.name, out + "</");
      out := out + ">";
    }
  }
}
