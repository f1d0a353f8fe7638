/** The parsed document as BeautifulSoup presents it to the pipeline: a tree of
    text, comment and element nodes; the `descendants` chain that walks it in
    document order; and the serialization `str(soup)`. */
module Html {
  import opened Wrappers
  import opened Strings

  /** An attribute value: a string, or a list of words for the attributes
      BeautifulSoup treats as multi-valued (`class`, `rel`, ...). */
  datatype AttrValue = Str(s: string) | List(words: seq<string>)

  datatype Attribute = Attribute(name: string, value: AttrValue)

  datatype Node =
    | Text(text: string)
    | Comment(text: string)
    | Element(name: string, attrs: seq<Attribute>, children: seq<Node>)

  /** The name of the BeautifulSoup object, the parent of the top-level nodes. */
  const DocumentName: string := "[document]"

  /** How a value is written out: a list value is its words joined by one space. */
  function ValueText(v: AttrValue): string {
    match v
    case Str(s) => s
    case List(ws) => Join(" ", ws)
  }

  // ---------------------------------------------------------------------------
  // Attribute access: `tag.has_attr(a)`, `tag.get(a)`, `tag[a] = v`

  /** The index of the attribute named `a`, if the tag has one. */
  function FindAttr(attrs: seq<Attribute>, a: string): (r: Option<nat>)
    ensures r.Some? ==> r.value < |attrs| && attrs[r.value].name == a
    ensures r.Some? ==> forall q :: 0 <= q < r.value ==> attrs[q].name != a
    ensures r.None? ==> forall q :: 0 <= q < |attrs| ==> attrs[q].name != a
    decreases |attrs|
  {
    if attrs == [] then None
    else if attrs[0].name == a then Some(0)
    else
      match FindAttr(attrs[1..], a)
      case None => None
      case Some(q) => Some(q + 1)
  }

  function GetAttr(attrs: seq<Attribute>, a: string): Option<AttrValue> {
    match FindAttr(attrs, a)
    case None => None
    case Some(q) => Some(attrs[q].value)
  }

  /** `tag[a] = v` on an attribute the tag has: the value is replaced in place. */
  function SetAttr(attrs: seq<Attribute>, a: string, v: AttrValue): (r: seq<Attribute>)
    ensures |r| == |attrs|
    ensures forall q :: 0 <= q < |r| ==> r[q].name == attrs[q].name
  {
    match FindAttr(attrs, a)
    case None => attrs
    case Some(q) => attrs[q := Attribute(a, v)]
  }

  lemma GetSetSame(attrs: seq<Attribute>, a: string, v: AttrValue)
    requires GetAttr(attrs, a).Some?
    ensures GetAttr(SetAttr(attrs, a, v), a) == Some(v)
  {
    var q := FindAttr(attrs, a).value;
    var r := SetAttr(attrs, a, v);
    assert r[q].name == a;
    FindUnique(r, a, q);
  }

  lemma GetSetOther(attrs: seq<Attribute>, a: string, b: string, v: AttrValue)
    requires a != b
    ensures GetAttr(SetAttr(attrs, a, v), b) == GetAttr(attrs, b)
  {
    var r := SetAttr(attrs, a, v);
    match FindAttr(attrs, b)
    case None =>
      assert forall q :: 0 <= q < |r| ==> r[q].name != b;
      assert FindAttr(r, b).None?;
    case Some(q) =>
      FindUnique(r, b, q);
      match FindAttr(attrs, a)
      case None =>
      case Some(qa) => assert qa != q;
  }

  /** Writing back the value an attribute already has changes nothing. */
  lemma SetAttrSame(attrs: seq<Attribute>, a: string, v: AttrValue)
    requires GetAttr(attrs, a) == Some(v)
    ensures SetAttr(attrs, a, v) == attrs
  {
    var q := FindAttr(attrs, a).value;
    assert attrs[q] == Attribute(a, v);
  }

  /** The lookup depends on the attribute names alone. */
  lemma {:induction false} FindAttrSameNames(x: seq<Attribute>, y: seq<Attribute>, a: string)
    requires |x| == |y| && forall q :: 0 <= q < |x| ==> x[q].name == y[q].name
    ensures FindAttr(x, a) == FindAttr(y, a)
    decreases |x|
  {
    if x != [] {
      assert x[0].name == y[0].name;
      FindAttrSameNames(x[1..], y[1..], a);
    }
  }

  /** The first attribute named `a` is the one `FindAttr` returns. */
  lemma FindUnique(attrs: seq<Attribute>, a: string, q: nat)
    requires q < |attrs| && attrs[q].name == a
    requires forall i :: 0 <= i < q ==> attrs[i].name != a
    ensures FindAttr(attrs, a) == Some(q)
  {
    match FindAttr(attrs, a)
    case None =>
    case Some(q') =>
  }

  // ---------------------------------------------------------------------------
  // The `descendants` chain

  /** One element of `soup.descendants`: a string with the name of its parent
      tag, a comment, or a tag with its attributes. */
  datatype Entry =
    | TextEntry(text: string, parent: string)
    | CommentEntry(text: string)
    | TagEntry(name: string, attrs: seq<Attribute>)

  /** The number of chain entries a node contributes: itself and its descendants. */
  function Size(n: Node): nat
    decreases n
  {
    match n
    case Element(_, _, ch) => 1 + Sizes(ch)
    case _ => 1
  }

  function Sizes(ns: seq<Node>): nat
    decreases ns
  {
    if ns == [] then 0 else Size(ns[0]) + Sizes(ns[1..])
  }

  /** `soup.descendants` for children of the tag named `parent`: every node in
      pre-order, a tag before its descendants, siblings left to right. */
  function Descendants(ns: seq<Node>, parent: string): (r: seq<Entry>)
    ensures |r| == Sizes(ns)
    decreases ns
  {
    if ns == [] then [] else NodeDescendants(ns[0], parent) + Descendants(ns[1..], parent)
  }

  function NodeDescendants(n: Node, parent: string): (r: seq<Entry>)
    ensures |r| == Size(n)
    ensures r[0] == match n
      case Text(t) => TextEntry(t, parent)
      case Comment(t) => CommentEntry(t)
      case Element(name, attrs, _) => TagEntry(name, attrs)
    decreases n
  {
    match n
    case Text(t) => [TextEntry(t, parent)]
    case Comment(t) => [CommentEntry(t)]
    case Element(name, attrs, ch) => [TagEntry(name, attrs)] + Descendants(ch, name)
  }

  /** The chain of a whole document. */
  function DocumentChain(doc: seq<Node>): seq<Entry> {
    Descendants(doc, DocumentName)
  }

  // ---------------------------------------------------------------------------
  // The tree a chain describes once its entries have been changed in place

  /** The tree `ns`, whose first node sits at position `off` of the chain `s`,
      with every string and every tag's attributes taken from its own chain
      entry. Replacing chain entries in place (`replace_with`, `tag[a] = key`)
      changes the tree exactly this way; structure and comments never change. */
  function Overlay(ns: seq<Node>, s: seq<Entry>, off: nat): (r: seq<Node>)
    ensures |r| == |ns|
    decreases ns
  {
    if ns == [] then [] else [OverlayNode(ns[0], s, off)] + Overlay(ns[1..], s, off + Size(ns[0]))
  }

  function OverlayNode(n: Node, s: seq<Entry>, off: nat): (r: Node)
    ensures r.Text? == n.Text? && r.Comment? == n.Comment? && r.Element? == n.Element?
    decreases n
  {
    match n
    case Text(t) => Text(if off < |s| && s[off].TextEntry? then s[off].text else t)
    case Comment(_) => n
    case Element(name, attrs, ch) =>
      Element(name, if off < |s| && s[off].TagEntry? then s[off].attrs else attrs, Overlay(ch, s, off + 1))
  }

  /** Chain `c` holds, from position `off` on, the entries of the nodes `ns`
      (children of the tag named `parent`). */
  predicate ChainHolds(ns: seq<Node>, parent: string, c: seq<Entry>, off: nat) {
    off + Sizes(ns) <= |c| && forall k :: 0 <= k < Sizes(ns) ==> c[off + k] == Descendants(ns, parent)[k]
  }

  predicate NodeChainHolds(n: Node, parent: string, c: seq<Entry>, off: nat) {
    off + Size(n) <= |c| && forall k :: 0 <= k < Size(n) ==> c[off + k] == NodeDescendants(n, parent)[k]
  }

  /** The entries of a sibling list are those of its first node, then those of the others. */
  lemma ChainHoldsSplit(ns: seq<Node>, parent: string, c: seq<Entry>, off: nat)
    requires ns != [] && ChainHolds(ns, parent, c, off)
    ensures NodeChainHolds(ns[0], parent, c, off)
    ensures ChainHolds(ns[1..], parent, c, off + Size(ns[0]))
  {
    var n := ns[0];
    var d0 := NodeDescendants(n, parent);
    var rest := Descendants(ns[1..], parent);
    assert Descendants(ns, parent) == d0 + rest;
    forall k | 0 <= k < Size(n) ensures c[off + k] == d0[k] {
      assert (d0 + rest)[k] == d0[k];
    }
    forall k | 0 <= k < Sizes(ns[1..]) ensures c[off + Size(n) + k] == rest[k] {
      assert c[off + (Size(n) + k)] == (d0 + rest)[Size(n) + k];
    }
  }

  /** A node's own entry comes first; a tag's children follow it. */
  lemma NodeChainHoldsHead(n: Node, parent: string, c: seq<Entry>, off: nat)
    requires NodeChainHolds(n, parent, c, off)
    ensures c[off] == NodeDescendants(n, parent)[0]
    ensures n.Element? ==> ChainHolds(n.children, n.name, c, off + 1)
  {
    assert c[off + 0] == NodeDescendants(n, parent)[0];
    if n.Element? {
      var dc := Descendants(n.children, n.name);
      assert NodeDescendants(n, parent) == [TagEntry(n.name, n.attrs)] + dc;
      forall k | 0 <= k < Sizes(n.children) ensures c[off + 1 + k] == dc[k] {
        assert c[off + (1 + k)] == NodeDescendants(n, parent)[1 + k];
      }
    }
  }

  /** The chain of a document holds the document. */
  lemma DocumentChainHolds(doc: seq<Node>)
    ensures ChainHolds(doc, DocumentName, DocumentChain(doc), 0)
  {
    forall k | 0 <= k < Sizes(doc) ensures DocumentChain(doc)[0 + k] == Descendants(doc, DocumentName)[k] {
      assert 0 + k == k;
    }
  }

  /** A chain that holds the tree's own entries describes the tree itself. */
  lemma {:induction false} OverlayOwnChain(ns: seq<Node>, parent: string, s: seq<Entry>, off: nat)
    requires ChainHolds(ns, parent, s, off)
    ensures Overlay(ns, s, off) == ns
    decreases ns
  {
    if ns != [] {
      ChainHoldsSplit(ns, parent, s, off);
      OverlayNodeOwnChain(ns[0], parent, s, off);
      OverlayOwnChain(ns[1..], parent, s, off + Size(ns[0]));
      assert [ns[0]] + ns[1..] == ns;
    }
  }

  lemma {:induction false} OverlayNodeOwnChain(n: Node, parent: string, s: seq<Entry>, off: nat)
    requires NodeChainHolds(n, parent, s, off)
    ensures OverlayNode(n, s, off) == n
    decreases n
  {
    NodeChainHoldsHead(n, parent, s, off);
    if n.Element? {
      OverlayOwnChain(n.children, n.name, s, off + 1);
    }
  }

  // ---------------------------------------------------------------------------
  // Serialization `str(soup)`

  /** No two neighbouring siblings are both strings: the parser merges
      consecutive character data into one string. */
  predicate NoAdjacentText(ns: seq<Node>)
    decreases ns
  {
    ns == [] ||
    (&& (|ns| > 1 ==> !(ns[0].Text? && ns[1].Text?))
     && (ns[0].Element? ==> NoAdjacentText(ns[0].children))
     && NoAdjacentText(ns[1..]))
  }

  /** Rebuilding from a chain keeps every node's kind, so it keeps the
      property that no two sibling strings are adjacent. */
  lemma {:induction false} OverlayNoAdjacentText(ns: seq<Node>, s: seq<Entry>, off: nat)
    requires NoAdjacentText(ns)
    ensures NoAdjacentText(Overlay(ns, s, off))
    decreases ns
  {
    if ns != [] {
      var r := Overlay(ns, s, off);
      assert r[0] == OverlayNode(ns[0], s, off);
      assert r[1..] == Overlay(ns[1..], s, off + Size(ns[0]));
      OverlayNoAdjacentText(ns[1..], s, off + Size(ns[0]));
      if |ns| > 1 {
        assert r[1] == Overlay(ns[1..], s, off + Size(ns[0]))[0];
      }
      if ns[0].Element? {
        OverlayNoAdjacentText(ns[0].children, s, off + 1);
      }
    }
  }

  /** One attribute as the serializer writes it: ` name="value"`. */
  function AttrText(a: Attribute): string {
    " " + a.name + "=\"" + ValueText(a.value) + "\""
  }

  function SerializeAttrs(attrs: seq<Attribute>): string
    decreases |attrs|
  {
    if attrs == [] then "" else AttrText(attrs[0]) + SerializeAttrs(attrs[1..])
  }

  function OpenTag(name: string, attrs: seq<Attribute>): string {
    "<" + name + SerializeAttrs(attrs) + ">"
  }

  function CloseTag(name: string): string {
    "</" + name + ">"
  }

  /** `str(soup)`: markup and strings in document order. */
  function Serialize(ns: seq<Node>): string
    decreases ns
  {
    if ns == [] then "" else SerializeNode(ns[0]) + Serialize(ns[1..])
  }

  function SerializeNode(n: Node): string
    decreases n
  {
    match n
    case Text(t) => t
    case Comment(t) => "<!--" + t + "-->"
    case Element(name, attrs, ch) => OpenTag(name, attrs) + Serialize(ch) + CloseTag(name)
  }
}
