/** The XML element tree both halves of the system exchange: the API
    description the extractor writes and the diff engine reads, and the
    diff document the engine builds. Only elements and their attributes are
    represented; attribute order carries no meaning, so attributes are a map. */
module XmlNodes {
  import opened Wrappers

  datatype Node = Node(name: string, attrs: map<string, string>, children: seq<Node>)

  /** `XmlDocument.CreateElement(name)`. */
  function Element(name: string): Node {
    Node(name, map[], [])
  }

  /** `node.Attributes[key]?.Value`: `None` when the attribute is absent. */
  function Attr(n: Node, key: string): (r: Option<string>)
    ensures r.Some? <==> key in n.attrs
  {
    if key in n.attrs then Some(n.attrs[key]) else None
  }

  /** `XmlElement.GetAttribute(key)`: the empty string when absent. */
  function GetAttribute(n: Node, key: string): (r: string)
    ensures key !in n.attrs ==> r == ""
    ensures key in n.attrs ==> r == n.attrs[key]
  {
    if key in n.attrs then n.attrs[key] else ""
  }

  /** `AddAttribute` guarded by a condition: `m` with `k` set to `v` when
      `cond` holds, and unchanged otherwise. */
  function PutIf(m: map<string, string>, cond: bool, k: string, v: string): (r: map<string, string>)
    ensures k in r <==> cond || k in m
    ensures cond ==> r[k] == v
    ensures forall j :: j != k ==> (j in r <==> j in m)
    ensures forall j :: j != k && j in m ==> r[j] == m[j]
  {
    if cond then m[k := v] else m
  }

  /** Appending an attribute: one with the same name is replaced. */
  function SetAttr(n: Node, key: string, value: string): (r: Node)
    ensures r.name == n.name && r.children == n.children
    ensures Attr(r, key) == Some(value)
    ensures forall k :: k != key ==> Attr(r, k) == Attr(n, k)
  {
    n.(attrs := n.attrs[key := value])
  }

  /** `parent.AppendChild(child)`. */
  function AppendChild(n: Node, child: Node): (r: Node)
    ensures r.name == n.name && r.attrs == n.attrs
    ensures r.children == n.children + [child]
  {
    n.(children := n.children + [child])
  }

  /** Index of the first child element called `name` (`SelectSingleNode(name)`), or -1. */
  function FirstChildNamed(n: Node, name: string): (r: int)
    ensures -1 <= r < |n.children|
    ensures r >= 0 ==> n.children[r].name == name
    ensures forall i :: 0 <= i < |n.children| && (r == -1 || i < r) ==> n.children[i].name != name
  {
    FirstNamed(n.children, name)
  }

  function FirstNamed(cs: seq<Node>, name: string): (r: int)
    ensures -1 <= r < |cs|
    ensures r >= 0 ==> cs[r].name == name
    ensures forall i :: 0 <= i < |cs| && (r == -1 || i < r) ==> cs[i].name != name
  {
    if |cs| == 0 then -1
    else if cs[0].name == name then 0
    else
      var i := FirstNamed(cs[1..], name);
      if i == -1 then -1 else i + 1
  }

  /** The first child element called `name`, if any. */
  function ChildNamed(n: Node, name: string): (r: Option<Node>)
    ensures r.Some? ==> r.value in n.children && r.value.name == name
    ensures r.None? ==> forall c :: c in n.children ==> c.name != name
  {
    var i := FirstChildNamed(n, name);
    if i == -1 then None else Some(n.children[i])
  }

  /** The child elements called `name`, in document order (`SelectNodes(name)`). */
  function ChildrenNamed(cs: seq<Node>, name: string): (r: seq<Node>)
    ensures forall c :: c in r ==> c in cs && c.name == name
    ensures forall c :: c in cs && c.name == name ==> c in r
    ensures |r| <= |cs|
  {
    if |cs| == 0 then []
    else (if cs[0].name == name then [cs[0]] else []) + ChildrenNamed(cs[1..], name)
  }
}
