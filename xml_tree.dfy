/**
 * The slice of the W3C DOM the converter uses: elements with attributes and ordered
 * children, text nodes, `getElementsByTagName` in document order, and appending a child.
 */
module XmlTree {
  import opened Wrappers

  /** An attribute, or a SAX attribute (qualified name and value). */
  datatype Attr = Attr(name: string, value: string)

  datatype Node =
    | Element(name: string, attrs: seq<Attr>, children: seq<Node>)
    | Text(data: string)

  /** An element with a single text child. */
  function TextElement(name: string, attrs: seq<Attr>, data: string): Node {
    Element(name, attrs, [Text(data)])
  }

  /** `getElementsByTagName(name)` on a subtree: the matching elements in document order. */
  function ElementsNamed(n: Node, name: string): (r: seq<Node>)
    ensures forall k :: 0 <= k < |r| ==> r[k].Element? && r[k].name == name
    decreases n, 1
  {
    match n
    case Text(_) => []
    case Element(nm, _, children) =>
      (if nm == name then [n] else []) + ElementsNamedIn(children, name)
  }

  /** `getElementsByTagName(name)` over a list of sibling subtrees. */
  function ElementsNamedIn(ns: seq<Node>, name: string): (r: seq<Node>)
    ensures forall k :: 0 <= k < |r| ==> r[k].Element? && r[k].name == name
    decreases ns, 0
  {
    if |ns| == 0 then [] else ElementsNamed(ns[0], name) + ElementsNamedIn(ns[1..], name)
  }

  /** The first element among `ns` with the given name. */
  function FirstNamed(ns: seq<Node>, name: string): (r: Option<Node>)
    ensures r.Some? ==> r.value.Element? && r.value.name == name && r.value in ns
    ensures r.None? ==> forall k :: 0 <= k < |ns| ==> !(ns[k].Element? && ns[k].name == name)
  {
    if |ns| == 0 then None
    else if ns[0].Element? && ns[0].name == name then Some(ns[0])
    else FirstNamed(ns[1..], name)
  }

  /** The first child element of `n` with the given name. */
  function Child(n: Node, name: string): Option<Node> {
    if n.Element? then FirstNamed(n.children, name) else None
  }

  /** Follow a path of element names from `n`, taking the first matching child at each step. */
  function Select(n: Node, path: seq<string>): Option<Node>
    decreases |path|
  {
    if |path| == 0 then Some(n)
    else
      match Child(n, path[0])
      case None => None
      case Some(c) => Select(c, path[1..])
  }

  lemma SelectStep(n: Node, name: string, c: Node, rest: seq<string>)
    requires Child(n, name) == Some(c)
    ensures Select(n, [name] + rest) == Select(c, rest)
  {
    assert ([name] + rest)[1..] == rest;
  }

  /** The first child named `name` is the one at index `k` when no earlier child has that name. */
  lemma {:induction false} FirstNamedAt(ns: seq<Node>, k: nat, name: string)
    requires k < |ns| && ns[k].Element? && ns[k].name == name
    requires forall j :: 0 <= j < k ==> !(ns[j].Element? && ns[j].name == name)
    ensures FirstNamed(ns, name) == Some(ns[k])
  {
    if k > 0 {
      FirstNamedAt(ns[1..], k - 1, name);
    }
  }

  /** One step of a path through the first child named `name`, found at index `k`. */
  lemma SelectVia(n: Node, k: nat, name: string, rest: seq<string>)
    requires n.Element? && k < |n.children|
    requires n.children[k].Element? && n.children[k].name == name
    requires forall j :: 0 <= j < k ==> !(n.children[j].Element? && n.children[j].name == name)
    ensures Select(n, [name] + rest) == Select(n.children[k], rest)
  {
    FirstNamedAt(n.children, k, name);
    SelectStep(n, name, n.children[k], rest);
  }

  /** `appendChild` on an element. */
  function AppendChild(n: Node, c: Node): (r: Node)
    requires n.Element?
    ensures r.Element? && r.name == n.name && r.attrs == n.attrs
    ensures r.children == n.children + [c]
  {
    n.(children := n.children + [c])
  }

  /** `getAttributes().getNamedItem(name)`: the value of the attribute with that name. */
  function GetAttr(attrs: seq<Attr>, name: string): (r: Option<string>)
    ensures r.Some? <==> exists k :: 0 <= k < |attrs| && attrs[k].name == name
    ensures r.Some? ==> exists k :: 0 <= k < |attrs| && attrs[k] == Attr(name, r.value)
  {
    if |attrs| == 0 then None
    else if attrs[0].name == name then Some(attrs[0].value)
    else GetAttr(attrs[1..], name)
  }

  /** `getTextContent`: the text of every text node in the subtree, in document order. */
  function TextContent(n: Node): string
    decreases n, 1
  {
    match n
    case Text(d) => d
    case Element(_, _, children) => TextContentIn(children)
  }

  function TextContentIn(ns: seq<Node>): string
    decreases ns, 0
  {
    if |ns| == 0 then "" else TextContent(ns[0]) + TextContentIn(ns[1..])
  }

  /** The named elements of a concatenation are those of each part, in order. */
  lemma {:induction false} ElementsNamedInConcat(a: seq<Node>, b: seq<Node>, name: string)
    ensures ElementsNamedIn(a + b, name) == ElementsNamedIn(a, name) + ElementsNamedIn(b, name)
    decreases |a|
  {
    if |a| == 0 {
      assert a + b == b;
    } else {
      assert (a + b)[1..] == a[1..] + b;
      ElementsNamedInConcat(a[1..], b, name);
    }
  }

  /**
   * `e.getParentNode().insertBefore(x, e)` for the first element `e` named `name` below
   * the siblings `ns`, in document order.
   */
  function InsertBeforeFirstIn(ns: seq<Node>, name: string, x: Node): seq<Node>
    decreases ns, 0
  {
    if |ns| == 0 then []
    else if ns[0].Element? && ns[0].name == name then [x] + ns
    else if |ElementsNamed(ns[0], name)| > 0 then [InsertBeforeFirstBelow(ns[0], name, x)] + ns[1..]
    else [ns[0]] + InsertBeforeFirstIn(ns[1..], name, x)
  }

  function InsertBeforeFirstBelow(n: Node, name: string, x: Node): Node
    decreases n, 1
  {
    match n
    case Text(_) => n
    case Element(nm, attrs, children) => Element(nm, attrs, InsertBeforeFirstIn(children, name, x))
  }

  /**
   * The same on a document whose element is `root`: no element of that name leaves the
   * document as it is, and a root of that name has the document as its parent, which
   * refuses a second element (None).
   */
  function InsertBeforeFirst(root: Node, name: string, x: Node): Option<Node> {
    if root.Element? && root.name == name then None
    else Some(InsertBeforeFirstBelow(root, name, x))
  }

  /**
   * Inserting `x` before the first element named `name` makes `x` the first such
   * element in document order and keeps the others in their order.
   */
  lemma {:induction false} InsertBeforeFirstInNamed(ns: seq<Node>, name: string, x: Node)
    requires ElementsNamed(x, name) == [x]
    requires |ElementsNamedIn(ns, name)| > 0
    ensures ElementsNamedIn(InsertBeforeFirstIn(ns, name, x), name) == [x] + ElementsNamedIn(ns, name)
    decreases ns, 0
  {
    var r := InsertBeforeFirstIn(ns, name, x);
    if ns[0].Element? && ns[0].name == name {
      ElementsNamedInConcat([x], ns, name);
      assert ElementsNamedIn([x], name) == ElementsNamed(x, name);
    } else if |ElementsNamed(ns[0], name)| > 0 {
      var y := InsertBeforeFirstBelow(ns[0], name, x);
      InsertBeforeFirstBelowNamed(ns[0], name, x);
      ElementsNamedInConcat([y], ns[1..], name);
      assert ElementsNamedIn([y], name) == ElementsNamed(y, name);
    } else {
      InsertBeforeFirstInNamed(ns[1..], name, x);
      ElementsNamedInConcat([ns[0]], InsertBeforeFirstIn(ns[1..], name, x), name);
      assert ElementsNamedIn([ns[0]], name) == ElementsNamed(ns[0], name);
    }
  }

  lemma {:induction false} InsertBeforeFirstBelowNamed(n: Node, name: string, x: Node)
    requires ElementsNamed(x, name) == [x]
    requires !(n.Element? && n.name == name) && |ElementsNamed(n, name)| > 0
    ensures ElementsNamed(InsertBeforeFirstBelow(n, name, x), name) == [x] + ElementsNamed(n, name)
    decreases n, 1
  {
    InsertBeforeFirstInNamed(n.children, name, x);
  }

  /** On a document: the inserted element comes first among those of its name. */
  lemma InsertBeforeFirstNamed(root: Node, name: string, x: Node)
    requires ElementsNamed(x, name) == [x]
    requires |ElementsNamed(root, name)| > 0
    ensures match InsertBeforeFirst(root, name, x)
            case None => root.name == name
            case Some(r) => ElementsNamed(r, name) == [x] + ElementsNamed(root, name)
  {
    if !(root.Element? && root.name == name) {
      InsertBeforeFirstBelowNamed(root, name, x);
    }
  }

  /** The tree with its first element named `name`, in document order, replaced by `y`. */
  function ReplaceFirst(n: Node, name: string, y: Node): Node
    decreases n, 1
  {
    if n.Element? && n.name == name then y
    else
      match n
      case Text(_) => n
      case Element(nm, attrs, children) => Element(nm, attrs, ReplaceFirstIn(children, name, y))
  }

  function ReplaceFirstIn(ns: seq<Node>, name: string, y: Node): seq<Node>
    decreases ns, 0
  {
    if |ns| == 0 then []
    else if |ElementsNamed(ns[0], name)| > 0 then [ReplaceFirst(ns[0], name, y)] + ns[1..]
    else [ns[0]] + ReplaceFirstIn(ns[1..], name, y)
  }
}
