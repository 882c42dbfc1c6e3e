/** The `System.Xml.Linq` trees a nuspec is read into, and the extension
    methods the package comparison uses on them: stripping namespaces from
    element names, and prefixing every line of a rendered element. */
module XElementExtensions {
  import opened Wrappers
  import opened Strings

  /** An `XName`: a namespace (empty for none) and a local name. */
  datatype Name = Name(namespace: string, localName: string)

  datatype Attribute = Attribute(name: Name, value: string)

  datatype Element = Element(name: Name, attributes: seq<Attribute>, nodes: seq<Node>)

  /** The child nodes of an element that the comparison can meet: text
      (and CDATA), comments, and elements. */
  datatype Node = Text(text: string) | Comment(comment: string) | Child(element: Element)

  /** `XName` for a bare local name, as `Element("metadata")` converts it. */
  function Local(localName: string): Name {
    Name("", localName)
  }

  // ------------------------------------------------------------- the value

  /** `XElement.Value`: the text of every descendant text node, in
      document order; attributes and comments contribute nothing. */
  function Value(e: Element): string {
    NodesValue(e.nodes)
  }

  function NodesValue(ns: seq<Node>): string {
    if |ns| == 0 then "" else NodesValue(ns[..|ns| - 1]) + NodeValue(ns[|ns| - 1])
  }

  function NodeValue(n: Node): string {
    match n
    case Text(t) => t
    case Comment(_) => ""
    case Child(e) => Value(e)
  }

  /** An element holding a single text node has that text as its value
      (the `Value` setter's result). */
  lemma TextValue(e: Element, text: string)
    requires e.nodes == [Text(text)]
    ensures Value(e) == text
  {
    assert e.nodes[..0] == [];
    assert NodesValue(e.nodes) == NodesValue([]) + NodeValue(Text(text));
    assert "" + text == text;
  }

  // ----------------------------------------------------- child navigation

  /** The element children of a node list (`Elements()`). */
  function ChildElements(ns: seq<Node>): (r: seq<Element>)
    ensures forall e :: e in r <==> Child(e) in ns
  {
    if |ns| == 0 then []
    else
      var init := ChildElements(ns[..|ns| - 1]);
      var n := ns[|ns| - 1];
      assert ns == ns[..|ns| - 1] + [n];
      if n.Child? then init + [n.element] else init
  }

  /** The position of the first element child named `name`
      (`Element(name)`), if any. */
  function FirstChildIndex(ns: seq<Node>, name: Name): (r: Option<nat>)
    ensures r.None? <==> forall i :: 0 <= i < |ns| ==> !(ns[i].Child? && ns[i].element.name == name)
    ensures r.Some? ==> r.value < |ns| && ns[r.value].Child? && ns[r.value].element.name == name
    ensures r.Some? ==> forall i :: 0 <= i < r.value ==> !(ns[i].Child? && ns[i].element.name == name)
  {
    if |ns| == 0 then None
    else if ns[0].Child? && ns[0].element.name == name then Some(0)
    else
      var k := FirstChildIndex(ns[1..], name);
      if k.None? then None else Some(k.value + 1)
  }

  /** `Element(name)`: the first element child with that name. */
  function FirstChild(e: Element, name: Name): (r: Option<Element>)
    ensures r.Some? ==> r.value.name == name && Child(r.value) in e.nodes
    ensures r.None? <==> forall c :: c in ChildElements(e.nodes) ==> c.name != name
  {
    var k := FirstChildIndex(e.nodes, name);
    if k.Some? then Some(e.nodes[k.value].element)
    else
      assert forall c :: Child(c) in e.nodes ==> c.name != name by {
        forall c | Child(c) in e.nodes
          ensures c.name != name
        {
          var i :| 0 <= i < |e.nodes| && e.nodes[i] == Child(c);
        }
      }
      None
  }

  // ----------------------------------------------------- namespace strip

  /** `StripAllNamespaces`: every element of the tree renamed to its local
      name. Attributes, text and comments are left as they are. */
  function StripElement(e: Element): (r: Element)
    ensures r.name == Local(e.name.localName)
    ensures r.attributes == e.attributes
  {
    Element(Local(e.name.localName), e.attributes, StripNodes(e.nodes))
  }

  function StripNodes(ns: seq<Node>): (r: seq<Node>)
    ensures |r| == |ns|
  {
    if |ns| == 0 then [] else StripNodes(ns[..|ns| - 1]) + [StripNode(ns[|ns| - 1])]
  }

  function StripNode(n: Node): Node {
    match n
    case Child(e) => Child(StripElement(e))
    case _ => n
  }

  /** No element of the tree has a namespace. */
  predicate NoNamespaces(e: Element) {
    e.name.namespace == "" && NodesNoNamespaces(e.nodes)
  }

  predicate NodesNoNamespaces(ns: seq<Node>) {
    |ns| == 0 || (NodesNoNamespaces(ns[..|ns| - 1]) && NodeNoNamespaces(ns[|ns| - 1]))
  }

  predicate NodeNoNamespaces(n: Node) {
    n.Child? ==> NoNamespaces(n.element)
  }

  /** After stripping, no element has a namespace. */
  lemma {:induction false} StripRemovesNamespaces(e: Element)
    ensures NoNamespaces(StripElement(e))
  {
    StripNodesRemoveNamespaces(e.nodes);
  }

  lemma {:induction false} StripNodesRemoveNamespaces(ns: seq<Node>)
    ensures NodesNoNamespaces(StripNodes(ns))
  {
    if |ns| > 0 {
      var r := StripNodes(ns);
      StripNodesRemoveNamespaces(ns[..|ns| - 1]);
      assert r[..|r| - 1] == StripNodes(ns[..|ns| - 1]);
      StripNodeRemovesNamespaces(ns[|ns| - 1]);
    }
  }

  lemma {:induction false} StripNodeRemovesNamespaces(n: Node)
    ensures NodeNoNamespaces(StripNode(n))
  {
    if n.Child? {
      StripRemovesNamespaces(n.element);
    }
  }

  /** Stripping namespaces does not change the text of an element. */
  lemma {:induction false} StripKeepsValue(e: Element)
    ensures Value(StripElement(e)) == Value(e)
  {
    StripNodesKeepValue(e.nodes);
  }

  lemma {:induction false} StripNodesKeepValue(ns: seq<Node>)
    ensures NodesValue(StripNodes(ns)) == NodesValue(ns)
  {
    if |ns| > 0 {
      var r := StripNodes(ns);
      StripNodesKeepValue(ns[..|ns| - 1]);
      assert r[..|r| - 1] == StripNodes(ns[..|ns| - 1]);
      StripNodeKeepsValue(ns[|ns| - 1]);
    }
  }

  lemma {:induction false} StripNodeKeepsValue(n: Node)
    ensures NodeValue(StripNode(n)) == NodeValue(n)
  {
    if n.Child? {
      StripKeepsValue(n.element);
    }
  }

  /** A tree without namespaces is left as it is, so stripping twice is
      stripping once. */
  lemma {:induction false} StripWithoutNamespaces(e: Element)
    requires NoNamespaces(e)
    ensures StripElement(e) == e
  {
    StripNodesWithoutNamespaces(e.nodes);
  }

  lemma {:induction false} StripNodesWithoutNamespaces(ns: seq<Node>)
    requires NodesNoNamespaces(ns)
    ensures StripNodes(ns) == ns
  {
    if |ns| > 0 {
      StripNodesWithoutNamespaces(ns[..|ns| - 1]);
      var n := ns[|ns| - 1];
      StripNodeWithoutNamespaces(n);
      assert ns == ns[..|ns| - 1] + [n];
    }
  }

  lemma {:induction false} StripNodeWithoutNamespaces(n: Node)
    requires NodeNoNamespaces(n)
    ensures StripNode(n) == n
  {
    if n.Child? {
      StripWithoutNamespaces(n.element);
    }
  }

  lemma StripIdempotent(e: Element)
    ensures StripElement(StripElement(e)) == StripElement(e)
  {
    StripRemovesNamespaces(e);
    StripWithoutNamespaces(StripElement(e));
  }

  /** The element children after stripping are the stripped children. */
  lemma {:induction false} StripChildElements(ns: seq<Node>)
    ensures ChildElements(StripNodes(ns)) == MapStrip(ChildElements(ns))
  {
    if |ns| > 0 {
      var r := StripNodes(ns);
      StripChildElements(ns[..|ns| - 1]);
      assert r[..|r| - 1] == StripNodes(ns[..|ns| - 1]);
      MapStripAppend(ChildElements(ns[..|ns| - 1]), ns[|ns| - 1]);
    }
  }

  function MapStrip(es: seq<Element>): (r: seq<Element>)
    ensures |r| == |es|
    ensures forall i :: 0 <= i < |es| ==> r[i] == StripElement(es[i])
  {
    if |es| == 0 then [] else MapStrip(es[..|es| - 1]) + [StripElement(es[|es| - 1])]
  }

  lemma MapStripAppend(es: seq<Element>, n: Node)
    ensures MapStrip(es + (if n.Child? then [n.element] else [])) ==
      MapStrip(es) + (if n.Child? then [StripElement(n.element)] else [])
  {
    if n.Child? {
      assert (es + [n.element])[..|es|] == es;
    } else {
      assert es + [] == es;
    }
  }

  // ------------------------------------------------------------ the lines

  predicate IsLineBreak(c: char) {
    c == '\r' || c == '\n'
  }

  predicate NoLineBreak(s: string) {
    forall i :: 0 <= i < |s| ==> !IsLineBreak(s[i])
  }

  /** The length of the first line: up to the first CR or LF. */
  function LineLength(s: string): (n: nat)
    ensures n <= |s| && NoLineBreak(s[..n])
    ensures n < |s| ==> IsLineBreak(s[n])
  {
    if |s| == 0 || IsLineBreak(s[0]) then 0
    else
      var n := 1 + LineLength(s[1..]);
      assert s[..n] == [s[0]] + s[1..][..n - 1];
      n
  }

  /** What follows a line and its terminator: CR LF, CR or LF. */
  function AfterLine(s: string, n: nat): (r: string)
    requires n <= |s|
    ensures |r| <= |s| - n
    ensures n < |s| ==> |r| < |s| - n
  {
    if n == |s| then []
    else if s[n] == '\r' && n + 1 < |s| && s[n + 1] == '\n' then s[n + 2..]
    else s[n + 1..]
  }

  /** The lines `StringReader.ReadLine` returns until it returns null: a
      terminator at the very end does not start another line. */
  function ReadLines(s: string): (r: seq<string>)
    ensures |r| == 0 <==> |s| == 0
    ensures forall i :: 0 <= i < |r| ==> NoLineBreak(r[i])
    decreases |s|
  {
    if |s| == 0 then []
    else
      var n := LineLength(s);
      [s[..n]] + ReadLines(AfterLine(s, n))
  }

  /** A line ended by `newline` is read back as that line. */
  lemma ReadLineThenRest(a: string, newline: string, b: string)
    requires newline == "\n" || newline == "\r\n"
    requires NoLineBreak(a)
    ensures ReadLines(a + newline + b) == [a] + ReadLines(b)
  {
    var s := a + newline + b;
    assert s[..|a|] == a;
    assert IsLineBreak(s[|a|]);
    assert LineLength(s) == |a|;
    assert s[..|a|] == a;
    assert AfterLine(s, |a|) == b;
  }

  /** `String.Join(sep, parts)` taken apart at the front. */
  lemma {:induction false} JoinFront(parts: seq<string>, sep: string)
    requires |parts| >= 2
    ensures Join(parts, sep) == parts[0] + sep + Join(parts[1..], sep)
    decreases |parts|
  {
    if |parts| > 2 {
      var init := parts[..|parts| - 1];
      JoinFront(init, sep);
      assert init[1..] == parts[1..][..|parts| - 2];
    }
  }

  /** Reading lines inverts joining them with a line terminator, when no
      line holds a terminator and the last one is not empty. */
  lemma {:induction false} ReadLinesOfJoin(lines: seq<string>, newline: string)
    requires newline == "\n" || newline == "\r\n"
    requires forall i :: 0 <= i < |lines| ==> NoLineBreak(lines[i])
    requires |lines| > 0 ==> |lines[|lines| - 1]| > 0
    ensures ReadLines(Join(lines, newline)) == lines
    decreases |lines|
  {
    if |lines| == 1 {
      assert lines[0] + "" == lines[0];
      assert LineLength(lines[0]) == |lines[0]|;
      assert lines[0][..|lines[0]|] == lines[0];
    } else if |lines| > 1 {
      JoinFront(lines, newline);
      ReadLinesOfJoin(lines[1..], newline);
      ReadLineThenRest(lines[0], newline, Join(lines[1..], newline));
    }
  }

  // ------------------------------------------------------- prefixed lines

  /** What `PrefixLines` appends for each line before trimming. */
  function PrefixedText(lines: seq<string>, prefix: string, newline: string): (r: string)
    ensures |lines| > 0 ==> StartsWith(r, prefix + " " + lines[0])
  {
    if |lines| == 0 then ""
    else
      var init := lines[..|lines| - 1];
      var r := PrefixedText(init, prefix, newline) + prefix + " " + lines[|lines| - 1] + newline;
      assert |init| > 0 ==> init[0] == lines[0];
      r
  }

  /** `PrefixLines`: every line of `str` as "prefix line" on a line of its
      own (ended by `newline`, the platform's `Environment.NewLine`), the
      whole trimmed of white space at both ends. */
  function PrefixLines(str: string, prefix: string, newline: string): (r: string)
    ensures |str| == 0 ==> r == ""
  {
    Trim(PrefixedText(ReadLines(str), prefix, newline))
  }

  /** `GetPrefixedString`: the element rendered by `render` (its
      `ToString()`, indented XML), each line prefixed. */
  function GetPrefixedString(e: Element, prefix: string, render: Element -> string, newline: string): string {
    PrefixLines(render(e), prefix, newline)
  }

  /** Each line prefixed, one after another. */
  function PrefixEach(lines: seq<string>, prefix: string): (r: seq<string>)
    ensures |r| == |lines|
    ensures forall i :: 0 <= i < |lines| ==> r[i] == prefix + " " + lines[i]
  {
    seq(|lines|, i requires 0 <= i < |lines| => prefix + " " + lines[i])
  }

  predicate AllWhiteSpace(s: string) {
    forall i :: 0 <= i < |s| ==> IsWhiteSpace(s[i])
  }

  /** The text before trimming is the prefixed lines, each followed by the
      terminator. */
  lemma {:induction false} PrefixedTextIsJoin(lines: seq<string>, prefix: string, newline: string)
    requires |lines| > 0
    ensures PrefixedText(lines, prefix, newline) == Join(PrefixEach(lines, prefix), newline) + newline
    decreases |lines|
  {
    if |lines| > 1 {
      var init := lines[..|lines| - 1];
      PrefixedTextIsJoin(init, prefix, newline);
      assert PrefixEach(lines, prefix)[..|lines| - 1] == PrefixEach(init, prefix);
    }
  }

  /** Trimming takes off only a white-space tail when the text starts and
      ends with something else. */
  lemma TrimOfTail(x: string, tail: string)
    requires |x| > 0 && !IsWhiteSpace(x[0]) && !IsWhiteSpace(x[|x| - 1])
    requires AllWhiteSpace(tail)
    ensures Trim(x + tail) == x
  {
    var s := x + tail;
    var a := TrimStart(s);
    assert |a| == |s|;
    assert a == s;
    var b := TrimEnd(s);
    assert s[|x| - 1] == x[|x| - 1];
    assert forall i :: |x| <= i < |s| ==> s[i] == tail[i - |x|];
    assert |b| == |x|;
    assert b == s[..|x|] == x;
  }

  /** When the lines are written one per line, the prefix starts with a
      visible character and the last line ends with one, prefixing gives
      exactly the prefixed lines joined by the terminator: the final trim
      only removes the last terminator. */
  lemma PrefixLinesOfJoin(lines: seq<string>, prefix: string, newline: string)
    requires newline == "\n" || newline == "\r\n"
    requires forall i :: 0 <= i < |lines| ==> NoLineBreak(lines[i])
    requires |lines| > 0 ==> |lines[|lines| - 1]| > 0 && !IsWhiteSpace(lines[|lines| - 1][|lines[|lines| - 1]| - 1])
    requires |prefix| > 0 && !IsWhiteSpace(prefix[0])
    ensures PrefixLines(Join(lines, newline), prefix, newline) == Join(PrefixEach(lines, prefix), newline)
  {
    ReadLinesOfJoin(lines, newline);
    if |lines| > 0 {
      PrefixedTextIsJoin(lines, prefix, newline);
      var ps := PrefixEach(lines, prefix);
      var x := Join(ps, newline);
      var last := lines[|lines| - 1];
      assert |ps| == 1 ==> x == ps[0];
      assert |ps| > 1 ==> x == Join(ps[..|ps| - 1], newline) + newline + ps[|ps| - 1];
      assert x[|x| - 1] == last[|last| - 1];
      if |ps| > 1 {
        JoinFront(ps, newline);
      }
      assert x[0] == prefix[0];
      TrimOfTail(x, newline);
    }
  }

  /** A non-empty rendering with a prefix free of white space gives a
      result that starts with the prefix. */
  lemma PrefixLinesStartsWithPrefix(str: string, prefix: string, newline: string)
    requires |str| > 0
    requires |prefix| > 0 && forall i :: 0 <= i < |prefix| ==> !IsWhiteSpace(prefix[i])
    ensures StartsWith(PrefixLines(str, prefix, newline), prefix)
  {
    var lines := ReadLines(str);
    var t := PrefixedText(lines, prefix, newline);
    assert t[..|prefix|] == prefix;
    var a := TrimStart(t);
    assert a == t;
    var b := TrimEnd(a);
    assert t[|prefix| - 1] == prefix[|prefix| - 1];
    assert !IsWhiteSpace(t[|prefix| - 1]);
    assert |b| >= |prefix|;
    assert b[..|prefix|] == t[..|prefix|];
  }
}
