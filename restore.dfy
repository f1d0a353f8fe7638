/** The last step of `translate_html_document`: `re.sub` over the serialized
    skeleton. When no string of the input document looks like a token, the
    substitution turns the skeleton's serialization into the serialization of
    the document whose units hold what the tokens map to. */
module Restore {
  import opened Strings
  import opened Html
  import opened Placeholder
  import opened Extract

  // ---------------------------------------------------------------------------
  // Documents without token-shaped text

  predicate PlainAttrs(attrs: seq<Attribute>) {
    forall q :: 0 <= q < |attrs| ==> NoMatch(attrs[q].name) && NoMatch(ValueText(attrs[q].value))
  }

  /** No string of the entry, tag names and attributes included, contains a
      match of `\[\[\[T\d+\]\]\]`. */
  predicate PlainEntry(e: Entry) {
    match e
    case TextEntry(t, _) => NoMatch(t)
    case CommentEntry(t) => NoMatch(t)
    case TagEntry(name, attrs) => NoMatch(name) && PlainAttrs(attrs)
  }

  predicate PlainChain(c: seq<Entry>) {
    forall p :: 0 <= p < |c| ==> PlainEntry(c[p])
  }

  // ---------------------------------------------------------------------------
  // Substitution over pieces of markup

  /** Text without `[` holds no match, so the substitution copies it. */
  lemma MarkupKept(s: string, mapping: map<string, string>)
    requires forall k :: 0 <= k < |s| ==> s[k] != '['
    ensures Substitute(s, mapping) == s
  {
    forall i | 0 <= i < |s| ensures MatchAt(s, i) == 0 {
      MatchStart(s, i);
    }
    SubstituteNoMatch(s, mapping);
  }

  /** Two pieces whose joint no match can cross are substituted one by one. */
  lemma JoinRestores(a: string, b: string, a': string, b': string, mapping: map<string, string>)
    requires SafeJoint(a, b)
    requires Substitute(a, mapping) == a' && Substitute(b, mapping) == b'
    ensures Substitute(a + b, mapping) == a' + b'
  {
    SubstituteConcat(a, b, mapping);
  }

  /** The attributes `x` become the attributes `y`: same names, no token in a
      name, and every value of `x` substitutes to the value of `y`. */
  predicate AttrsAgree(x: seq<Attribute>, y: seq<Attribute>, mapping: map<string, string>) {
    && |x| == |y|
    && forall q :: 0 <= q < |x| ==>
         && x[q].name == y[q].name
         && NoMatch(x[q].name)
         && Substitute(ValueText(x[q].value), mapping) == ValueText(y[q].value)
  }

  lemma AttrTextRestores(x: Attribute, y: Attribute, mapping: map<string, string>)
    requires x.name == y.name && NoMatch(x.name)
    requires Substitute(ValueText(x.value), mapping) == ValueText(y.value)
    ensures Substitute(AttrText(x), mapping) == AttrText(y)
  {
    var n, v, w := x.name, ValueText(x.value), ValueText(y.value);
    MarkupKept(" ", mapping);
    MarkupKept("=\"", mapping);
    MarkupKept("\"", mapping);
    SubstituteNoMatch(n, mapping);
    JoinRestores(" ", n, " ", n, mapping);
    JoinRestores(" " + n, "=\"", " " + n, "=\"", mapping);
    JoinRestores(" " + n + "=\"", v, " " + n + "=\"", w, mapping);
    JoinRestores(" " + n + "=\"" + v, "\"", " " + n + "=\"" + w, "\"", mapping);
  }

  lemma {:induction false} AttrsRestore(x: seq<Attribute>, y: seq<Attribute>, mapping: map<string, string>)
    requires AttrsAgree(x, y, mapping)
    ensures Substitute(SerializeAttrs(x), mapping) == SerializeAttrs(y)
    decreases |x|
  {
    if x == [] {
      MarkupKept("", mapping);
    } else {
      AttrTextRestores(x[0], y[0], mapping);
      assert AttrsAgree(x[1..], y[1..], mapping) by {
        forall q | 0 <= q < |x[1..]| ensures x[1..][q] == x[q + 1] && y[1..][q] == y[q + 1] { }
      }
      AttrsRestore(x[1..], y[1..], mapping);
      var t := AttrText(x[0]);
      assert t[|t| - 1] == '"';
      JoinRestores(t, SerializeAttrs(x[1..]), AttrText(y[0]), SerializeAttrs(y[1..]), mapping);
    }
  }

  lemma CommentRestores(t: string, mapping: map<string, string>)
    requires NoMatch(t)
    ensures Substitute("<!--" + t + "-->", mapping) == "<!--" + t + "-->"
  {
    MarkupKept("<!--", mapping);
    MarkupKept("-->", mapping);
    SubstituteNoMatch(t, mapping);
    JoinRestores("<!--", t, "<!--", t, mapping);
    JoinRestores("<!--" + t, "-->", "<!--" + t, "-->", mapping);
  }

  /** A serialized attribute list is empty or starts with a space. */
  lemma SerializeAttrsStart(attrs: seq<Attribute>)
    ensures SerializeAttrs(attrs) == "" || SerializeAttrs(attrs)[0] == ' '
  {
    if attrs != [] {
      assert AttrText(attrs[0])[0] == ' ';
    }
  }

  lemma OpenTagRestores(name: string, a1: seq<Attribute>, a2: seq<Attribute>, mapping: map<string, string>)
    requires NoMatch(name)
    requires Substitute(SerializeAttrs(a1), mapping) == SerializeAttrs(a2)
    ensures Substitute(OpenTag(name, a1), mapping) == OpenTag(name, a2)
  {
    MarkupKept("<", mapping);
    MarkupKept(">", mapping);
    SubstituteNoMatch(name, mapping);
    SerializeAttrsStart(a1);
    JoinRestores("<", name, "<", name, mapping);
    JoinRestores("<" + name, SerializeAttrs(a1), "<" + name, SerializeAttrs(a2), mapping);
    JoinRestores("<" + name + SerializeAttrs(a1), ">", "<" + name + SerializeAttrs(a2), ">", mapping);
  }

  lemma CloseTagRestores(name: string, mapping: map<string, string>)
    requires NoMatch(name)
    ensures Substitute(CloseTag(name), mapping) == CloseTag(name)
  {
    MarkupKept("</", mapping);
    MarkupKept(">", mapping);
    SubstituteNoMatch(name, mapping);
    JoinRestores("</", name, "</", name, mapping);
    JoinRestores("</" + name, ">", "</" + name, ">", mapping);
  }

  /** A tag's markup is kept, and its content substituted in between. */
  lemma ElementRestores(name: string, a1: seq<Attribute>, a2: seq<Attribute>, inner1: string, inner2: string, mapping: map<string, string>)
    requires NoMatch(name)
    requires Substitute(SerializeAttrs(a1), mapping) == SerializeAttrs(a2)
    requires Substitute(inner1, mapping) == inner2
    ensures Substitute(OpenTag(name, a1) + inner1 + CloseTag(name), mapping) == OpenTag(name, a2) + inner2 + CloseTag(name)
  {
    OpenTagRestores(name, a1, a2, mapping);
    CloseTagRestores(name, mapping);
    var o := OpenTag(name, a1);
    assert o[|o| - 1] == '>';
    JoinRestores(o, inner1, OpenTag(name, a2), inner2, mapping);
    assert CloseTag(name)[0] == '<';
    JoinRestores(o + inner1, CloseTag(name), OpenTag(name, a2) + inner2, CloseTag(name), mapping);
  }

  // ---------------------------------------------------------------------------
  // Substitution over a whole tree

  /** Chain entries `e1` and `e2` stand in for the entry `e` of the document:
      a string becomes, under the substitution, the other chain's string; a
      tag's attribute list likewise; tag names and comments hold no token. */
  predicate EntryRestores(e: Entry, e1: Entry, e2: Entry, mapping: map<string, string>) {
    match e
    case TextEntry(_, _) => e1.TextEntry? && e2.TextEntry? && Substitute(e1.text, mapping) == e2.text
    case CommentEntry(t) => NoMatch(t)
    case TagEntry(name, _) =>
      && NoMatch(name) && e1.TagEntry? && e2.TagEntry?
      && Substitute(SerializeAttrs(e1.attrs), mapping) == SerializeAttrs(e2.attrs)
  }

  predicate ChainRestores(c: seq<Entry>, s1: seq<Entry>, s2: seq<Entry>, mapping: map<string, string>) {
    && |s1| == |c| && |s2| == |c|
    && forall p :: 0 <= p < |c| ==> EntryRestores(c[p], s1[p], s2[p], mapping)
  }

  /** Tags and comments are written between `<` and `>`. */
  lemma MarkupNode(n: Node)
    requires !n.Text?
    ensures SerializeNode(n) != "" && SerializeNode(n)[0] == '<'
    ensures SerializeNode(n)[|SerializeNode(n)| - 1] == '>'
  {
    match n
    case Comment(t) =>
      var x := "<!--" + t + "-->";
      assert x[0] == '<' && x[|x| - 1] == '>';
    case Element(name, attrs, ch) =>
      var x := OpenTag(name, attrs) + Serialize(ch) + CloseTag(name);
      assert x[0] == OpenTag(name, attrs)[0] == '<';
      assert x[|x| - 1] == CloseTag(name)[|CloseTag(name)| - 1] == '>';
  }

  /** No match crosses from one sibling into the next: one of the two is markup. */
  lemma SiblingsJoint(ns: seq<Node>, s1: seq<Entry>, off: nat)
    requires ns != [] && NoAdjacentText(ns)
    ensures SafeJoint(SerializeNode(OverlayNode(ns[0], s1, off)), Serialize(Overlay(ns[1..], s1, off + Size(ns[0]))))
  {
    if !ns[0].Text? {
      MarkupNode(OverlayNode(ns[0], s1, off));
    } else if ns[1..] != [] {
      MarkupFirst(ns[1..], s1, off + Size(ns[0]));
    }
  }

  /** Siblings that start with markup serialize to text that starts with `<`. */
  lemma MarkupFirst(ns: seq<Node>, s: seq<Entry>, off: nat)
    requires ns != [] && !ns[0].Text?
    ensures Serialize(Overlay(ns, s, off)) != "" && Serialize(Overlay(ns, s, off))[0] == '<'
  {
    var r := Overlay(ns, s, off);
    assert r[0] == OverlayNode(ns[0], s, off);
    MarkupNode(r[0]);
  }

  lemma OverlayCons(ns: seq<Node>, s: seq<Entry>, off: nat)
    requires ns != []
    ensures Serialize(Overlay(ns, s, off)) == SerializeNode(OverlayNode(ns[0], s, off)) + Serialize(Overlay(ns[1..], s, off + Size(ns[0])))
  {
    var r := Overlay(ns, s, off);
    assert r[1..] == Overlay(ns[1..], s, off + Size(ns[0]));
  }

  /** The substitution turns the serialization of the tree rebuilt from `s1`
      into that of the tree rebuilt from `s2`. */
  lemma {:induction false} NodesRestore(ns: seq<Node>, parent: string, c: seq<Entry>, s1: seq<Entry>, s2: seq<Entry>, off: nat, mapping: map<string, string>)
    requires ChainHolds(ns, parent, c, off) && ChainRestores(c, s1, s2, mapping) && NoAdjacentText(ns)
    ensures Substitute(Serialize(Overlay(ns, s1, off)), mapping) == Serialize(Overlay(ns, s2, off))
    decreases ns
  {
    if ns == [] {
      MarkupKept("", mapping);
    } else {
      ChainHoldsSplit(ns, parent, c, off);
      NodeRestore(ns[0], parent, c, s1, s2, off, mapping);
      NodesRestore(ns[1..], parent, c, s1, s2, off + Size(ns[0]), mapping);
      OverlayCons(ns, s1, off);
      OverlayCons(ns, s2, off);
      SiblingsJoint(ns, s1, off);
      JoinRestores(SerializeNode(OverlayNode(ns[0], s1, off)), Serialize(Overlay(ns[1..], s1, off + Size(ns[0]))),
                   SerializeNode(OverlayNode(ns[0], s2, off)), Serialize(Overlay(ns[1..], s2, off + Size(ns[0]))), mapping);
    }
  }

  lemma {:induction false} NodeRestore(n: Node, parent: string, c: seq<Entry>, s1: seq<Entry>, s2: seq<Entry>, off: nat, mapping: map<string, string>)
    requires NodeChainHolds(n, parent, c, off) && ChainRestores(c, s1, s2, mapping)
    requires n.Element? ==> NoAdjacentText(n.children)
    ensures Substitute(SerializeNode(OverlayNode(n, s1, off)), mapping) == SerializeNode(OverlayNode(n, s2, off))
    decreases n
  {
    NodeChainHoldsHead(n, parent, c, off);
    assert EntryRestores(c[off], s1[off], s2[off], mapping);
    match n
    case Text(_) =>
    case Comment(t) =>
      CommentRestores(t, mapping);
    case Element(name, attrs, ch) =>
      NodesRestore(ch, name, c, s1, s2, off + 1, mapping);
      ElementRestores(name, s1[off].attrs, s2[off].attrs, Serialize(Overlay(ch, s1, off + 1)), Serialize(Overlay(ch, s2, off + 1)), mapping);
  }

  // ---------------------------------------------------------------------------
  // Filled chains

  /** Each value `v1(j)` substitutes to `v2(j)`. */
  ghost predicate ValuesRestore(v1: nat -> string, v2: nat -> string, mapping: map<string, string>) {
    forall j :: Substitute(v1(j), mapping) == v2(j)
  }

  lemma SetAttrAgree(x: seq<Attribute>, y: seq<Attribute>, a: string, w1: AttrValue, w2: AttrValue, mapping: map<string, string>)
    requires AttrsAgree(x, y, mapping)
    requires Substitute(ValueText(w1), mapping) == ValueText(w2)
    ensures AttrsAgree(SetAttr(x, a, w1), SetAttr(y, a, w2), mapping)
  {
    FindAttrSameNames(x, y, a);
  }

  lemma {:induction false} FillAttrsAgree(attrs: seq<Attribute>, v1: nat -> string, v2: nat -> string, base: nat, p: nat, m: nat, mapping: map<string, string>)
    requires m <= |AttrNames| && PlainAttrs(attrs) && ValuesRestore(v1, v2, mapping)
    ensures AttrsAgree(FillAttrs(attrs, v1, base, p, m), FillAttrs(attrs, v2, base, p, m), mapping)
    decreases m
  {
    if m == 0 {
      forall q | 0 <= q < |attrs| ensures Substitute(ValueText(attrs[q].value), mapping) == ValueText(attrs[q].value) {
        SubstituteNoMatch(ValueText(attrs[q].value), mapping);
      }
    } else {
      FillAttrsAgree(attrs, v1, v2, base, p, m - 1, mapping);
      var a := AttrNames[m - 1];
      if EligibleAttr(attrs, a) {
        var n := base + |TagUnits(attrs, p, m - 1)|;
        FillAttrsKeep(attrs, v1, base, p, m);
        FillAttrsKeep(attrs, v2, base, p, m);
        assert Substitute(ValueText(Str(v1(n))), mapping) == ValueText(Str(v2(n)));
        SetAttrAgree(FillAttrs(attrs, v1, base, p, m - 1), FillAttrs(attrs, v2, base, p, m - 1), a, Str(v1(n)), Str(v2(n)), mapping);
      } else {
        FillAttrsSkip(attrs, v1, base, p, m);
        FillAttrsSkip(attrs, v2, base, p, m);
      }
    }
  }

  lemma TagFillRestores(c: seq<Entry>, v1: nat -> string, v2: nat -> string, p: nat, mapping: map<string, string>)
    requires p < |c| && c[p].TagEntry? && PlainEntry(c[p]) && ValuesRestore(v1, v2, mapping)
    ensures EntryRestores(c[p], Fill(c, v1)[p], Fill(c, v2)[p], mapping)
  {
    var base := |TextUnits(c)| + |AttrUnitsUpTo(c, p)|;
    var attrs := c[p].attrs;
    assert PlainAttrs(attrs);
    var f1, f2 := FillAttrs(attrs, v1, base, p, |AttrNames|), FillAttrs(attrs, v2, base, p, |AttrNames|);
    FillTagAt(c, v1, p);
    FillTagAt(c, v2, p);
    assert Fill(c, v1)[p] == TagEntry(c[p].name, f1) && Fill(c, v2)[p] == TagEntry(c[p].name, f2);
    FillAttrsAgree(attrs, v1, v2, base, p, |AttrNames|, mapping);
    AttrsRestore(f1, f2, mapping);
  }

  lemma TextFillRestores(c: seq<Entry>, v1: nat -> string, v2: nat -> string, p: nat, mapping: map<string, string>)
    requires p < |c| && !c[p].TagEntry? && PlainEntry(c[p]) && ValuesRestore(v1, v2, mapping)
    ensures EntryRestores(c[p], Fill(c, v1)[p], Fill(c, v2)[p], mapping)
  {
    FillTextAt(c, v1, p);
    FillTextAt(c, v2, p);
    if EligibleText(c[p]) {
      assert Substitute(v1(|TextUnitsUpTo(c, p)|), mapping) == v2(|TextUnitsUpTo(c, p)|);
    } else if c[p].TextEntry? {
      SubstituteNoMatch(c[p].text, mapping);
    }
  }

  /** Filling a token-free chain with values that substitute to others gives
      chains that restore one another. */
  lemma FillRestores(c: seq<Entry>, v1: nat -> string, v2: nat -> string, mapping: map<string, string>)
    requires PlainChain(c) && ValuesRestore(v1, v2, mapping)
    ensures ChainRestores(c, Fill(c, v1), Fill(c, v2), mapping)
  {
    forall p | 0 <= p < |c| ensures EntryRestores(c[p], Fill(c, v1)[p], Fill(c, v2)[p], mapping) {
      if c[p].TagEntry? {
        TagFillRestores(c, v1, v2, p, mapping);
      } else {
        TextFillRestores(c, v1, v2, p, mapping);
      }
    }
  }

  /** `re.sub` over a document whose units hold values `v1` gives the
      document whose units hold `v2`, when each `v1(j)` substitutes to
      `v2(j)` and no string of the document contains a token. */
  lemma DocumentRestores(doc: seq<Node>, v1: nat -> string, v2: nat -> string, mapping: map<string, string>)
    requires NoAdjacentText(doc) && PlainChain(DocumentChain(doc)) && ValuesRestore(v1, v2, mapping)
    ensures Substitute(Serialize(Overlay(doc, Fill(DocumentChain(doc), v1), 0)), mapping)
         == Serialize(Overlay(doc, Fill(DocumentChain(doc), v2), 0))
  {
    var c := DocumentChain(doc);
    DocumentChainHolds(doc);
    FillRestores(c, v1, v2, mapping);
    NodesRestore(doc, DocumentName, c, Fill(c, v1), Fill(c, v2), 0, mapping);
  }

  /** What every token maps to under `mapping.get(token, token)`. */
  function Restored(mapping: map<string, string>): nat -> string {
    (j: nat) => Lookup(mapping, Key(j))
  }

  /** The substitution over the skeleton's serialization is the serialization
      of the document whose i-th unit holds what the i-th token maps to. */
  lemma SkeletonRestores(doc: seq<Node>, mapping: map<string, string>)
    requires NoAdjacentText(doc) && PlainChain(DocumentChain(doc))
    ensures Substitute(Serialize(Overlay(doc, Skeleton(DocumentChain(doc)), 0)), mapping)
         == Serialize(Overlay(doc, Fill(DocumentChain(doc), Restored(mapping)), 0))
  {
    forall j: nat ensures Substitute(Key(j), mapping) == Restored(mapping)(j) {
      SubstituteKey(j, mapping);
    }
    DocumentRestores(doc, Key, Restored(mapping), mapping);
  }
}
