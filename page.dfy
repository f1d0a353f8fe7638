/** The assembly in `translate_html`: every chunk is translated, the
    translations are joined, and the result is wrapped in a fixed `<html>`
    document with the head and the body's attributes. */
module Page {
  import opened Wrappers
  import opened Strings
  import opened Html
  import opened Chunker

  /** `f'{k}="{v}"'`, a list value being written as its words joined by one space. */
  function BodyAttr(a: Attribute): string {
    a.name + "=\"" + ValueText(a.value) + "\""
  }

  /** The attribute renderings of a tag, in attribute order. */
  function BodyAttrList(attrs: seq<Attribute>): (r: seq<string>)
    ensures |r| == |attrs|
    ensures forall k :: 0 <= k < |attrs| ==> r[k] == BodyAttr(attrs[k])
  {
    seq(|attrs|, k requires 0 <= k < |attrs| => BodyAttr(attrs[k]))
  }

  /** `body_attrs`: the renderings joined by single spaces. */
  function BodyAttrs(attrs: seq<Attribute>): string {
    Join(" ", BodyAttrList(attrs))
  }

  /** The attribute string of the body, or `''` without a body. */
  function BodyAttrsOf(body: Option<Node>): string
    requires body.Some? ==> body.value.Element?
  {
    if body.Some? then BodyAttrs(body.value.attrs) else ""
  }

  /** The f-string `final_html`. */
  function Wrap(head: string, bodyAttrs: string, content: string): string {
    "<html>\n" + head + "\n<body " + bodyAttrs + ">\n" + content + "\n</body>\n</html>"
  }

  /** The markup of the wrapper before the body content. */
  function WrapPrefix(head: string, bodyAttrs: string): string {
    "<html>\n" + head + "\n<body " + bodyAttrs + ">\n"
  }

  const WrapSuffix: string := "\n</body>\n</html>"

  /** The content can be read back out of the wrapper: it sits between the
      fixed prefix, which is determined by head and attributes, and the fixed
      suffix. */
  lemma WrapContent(head: string, bodyAttrs: string, content: string)
    ensures var w, pre := Wrap(head, bodyAttrs, content), WrapPrefix(head, bodyAttrs);
      && |w| == |pre| + |content| + |WrapSuffix|
      && w[..|pre|] == pre
      && w[|pre|..|w| - |WrapSuffix|] == content
      && w[|w| - |WrapSuffix|..] == WrapSuffix
  {
    var w, pre := Wrap(head, bodyAttrs, content), WrapPrefix(head, bodyAttrs);
    assert w == pre + content + WrapSuffix;
  }

  /** `tag.attrs` written by the serializer is a space before each rendering. */
  lemma {:induction false} SerializeAttrsSnoc(attrs: seq<Attribute>, a: Attribute)
    ensures SerializeAttrs(attrs + [a]) == SerializeAttrs(attrs) + AttrText(a)
    decreases |attrs|
  {
    if attrs == [] {
      assert [a][1..] == [];
    } else {
      assert (attrs + [a])[1..] == attrs[1..] + [a];
      SerializeAttrsSnoc(attrs[1..], a);
    }
  }

  /** With at least one attribute, the body's attribute string is the
      serializer's, less its leading space. */
  lemma BodyAttrsSerialized(attrs: seq<Attribute>)
    requires attrs != []
    ensures " " + BodyAttrs(attrs) == SerializeAttrs(attrs)
  {
    SpacedJoin(BodyAttrList(attrs), attrs);
  }

  /** Joining renderings with single spaces and putting one more space in
      front writes a space before each rendering. */
  lemma {:induction false} SpacedJoin(l: seq<string>, attrs: seq<Attribute>)
    requires |l| == |attrs| > 0
    requires forall k :: 0 <= k < |l| ==> l[k] == BodyAttr(attrs[k])
    ensures " " + Join(" ", l) == SerializeAttrs(attrs)
    decreases |l|
  {
    var n := |l| - 1;
    var init, last := attrs[..n], attrs[n];
    assert init + [last] == attrs;
    SerializeAttrsSnoc(init, last);
    assert AttrText(last) == " " + l[n];
    if n == 0 {
      assert SerializeAttrs(init) == "";
    } else {
      SpacedJoin(l[..n], init);
      var x, y := Join(" ", l[..n]), l[n];
      assert Join(" ", l) == x + " " + y;
      Regroup(" ", x, y);
    }
  }

  lemma Regroup(sp: string, x: string, y: string)
    ensures sp + (x + sp + y) == (sp + x) + (sp + y)
  {
  }

  /** So the wrapper's `<body ...>` is the body's own start tag whenever the
      body has attributes. */
  lemma BodyOpenTag(attrs: seq<Attribute>)
    requires attrs != []
    ensures "<body " + BodyAttrs(attrs) + ">" == OpenTag("body", attrs)
  {
    BodyAttrsSerialized(attrs);
  }

  /** The translation of every chunk, in order. */
  function TranslateAll(chunks: seq<string>, translate: string -> string): (r: seq<string>)
    ensures |r| == |chunks|
    ensures forall k :: 0 <= k < |chunks| ==> r[k] == translate(chunks[k])
  {
    seq(|chunks|, k requires 0 <= k < |chunks| => translate(chunks[k]))
  }

  /** `str(head)` when the document has a head. */
  function HeadString(head: Option<Node>): Option<string> {
    if head.Some? then Some(SerializeNode(head.value)) else None
  }

  /** The strings of the body's children when the document has a body. */
  function BodyStrings(body: Option<Node>): Option<seq<string>>
    requires body.Some? ==> body.value.Element?
  {
    if body.Some? then Some(ChildStrings(body.value.children)) else None
  }

  /** The document `translate_html` returns, for the head and body that
      `soup.find` gives and a chunk translator. */
  function TranslatedPage(head: Option<Node>, body: Option<Node>, translate: string -> string): string
    requires body.Some? ==> body.value.Element?
  {
    var split := SplitHtml(HeadString(head), BodyStrings(body), DefaultMaxChunk);
    Wrap(split.0, BodyAttrsOf(body), Concat(TranslateAll(split.1, translate)))
  }

  /** The loop `for i, chunk in enumerate(body_chunks)`: each chunk's
      translation is appended in turn. */
  method TranslateChunks(chunks: seq<string>, translate: string -> string) returns (translated: seq<string>)
    ensures translated == TranslateAll(chunks, translate)
  {
    translated := [];
    for i := 0 to |chunks|
      invariant |translated| == i
      invariant forall k :: 0 <= k < i ==> translated[k] == translate(chunks[k])
    {
      translated := translated + [translate(chunks[i])];
    }
  }

  /** `translate_html` from the split to `final_html`; `translate` stands for
      `translate_chunk_with_openai`. */
  method TranslateHtml(head: Option<Node>, body: Option<Node>, translate: string -> string) returns (finalHtml: string)
    requires body.Some? ==> body.value.Element?
    ensures finalHtml == TranslatedPage(head, body, translate)
  {
    var headContent, bodyChunks := SplitHtmlIntelligently(HeadString(head), BodyStrings(body), DefaultMaxChunk);
    var translatedChunks := TranslateChunks(bodyChunks, translate);
    var bodyContent := Concat(translatedChunks);
    var bodyAttrs := "";
    if body.Some? {
      bodyAttrs := BodyAttrs(body.value.attrs);
    }
    finalHtml := Wrap(headContent, bodyAttrs, bodyContent);
  }

  /** With a translator that changes nothing, the page holds the head's markup
      and the body's inner markup, a direct comment child of the body reduced
      to its bare text as `str` gives it. */
  lemma IdentityPage(head: Option<Node>, body: Option<Node>)
    requires body.Some? ==> body.value.Element?
    ensures TranslatedPage(head, body, s => s)
         == Wrap(if head.Some? then SerializeNode(head.value) else "",
                 BodyAttrsOf(body),
                 if body.Some? then Serialize(Uncommented(body.value.children)) else "")
  {
    var split := SplitHtml(HeadString(head), BodyStrings(body), DefaultMaxChunk);
    assert TranslateAll(split.1, s => s) == split.1;
    if body.Some? {
      ChunksConcat(ChildStrings(body.value.children), DefaultMaxChunk);
      ChildStringsConcat(body.value.children);
    }
  }
}
