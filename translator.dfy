/** `translate_html_document`: tokens in, translations out, tokens replaced. */
module Translator {
  import opened Wrappers
  import opened Html
  import opened Placeholder
  import opened Extract
  import opened Batching
  import opened Gateway
  import opened Restore

  /** `MAX_ITEMS_PER_REQUEST`. */
  const MaxItemsPerRequest: int := 120

  // ---------------------------------------------------------------------------
  // What the two passes return

  /** The items of `_collect_translatable_nodes`: unit `i` under token `i`. */
  function ItemsOf(c: seq<Entry>): (items: seq<Item>)
    ensures Numbered(items, 0, Units(c))
  {
    seq(|Units(c)|, i requires 0 <= i < |Units(c)| => Item(Key(i), Units(c)[i].kind))
  }

  /** The `originals` list: the original string of every unit, in order. */
  function OriginalsList(c: seq<Entry>): (vals: seq<string>)
    ensures OriginalsOf(vals, c, Units(c))
  {
    seq(|Units(c)|, i requires 0 <= i < |Units(c)| => Original(c, Units(c)[i]))
  }

  lemma NumberedIsItemsOf(items: seq<Item>, c: seq<Entry>)
    requires Numbered(items, 0, Units(c))
    ensures items == ItemsOf(c)
  {
  }

  lemma OriginalsAreList(vals: seq<string>, c: seq<Entry>)
    requires OriginalsOf(vals, c, Units(c))
    ensures vals == OriginalsList(c)
  {
  }

  /** No two items share a token. */
  lemma ItemKeysDistinct(items: seq<Item>, base: nat, us: seq<Unit>)
    requires Numbered(items, base, us)
    ensures forall i, j :: 0 <= i < j < |items| ==> items[i].key != items[j].key
  {
    forall i, j | 0 <= i < j < |items| ensures items[i].key != items[j].key {
      KeysDistinct(base + i, base + j);
    }
  }

  // ---------------------------------------------------------------------------
  // The mapping

  /** `mapping[key] = t` for the first `k` pairs of `zip(collected, translations)`. */
  function ZipMap(items: seq<Item>, ts: seq<string>, k: nat): map<string, string>
    requires k <= |items| && k <= |ts|
    decreases k
  {
    if k == 0 then map[] else ZipMap(items, ts, k - 1)[items[k - 1].key := ts[k - 1]]
  }

  function Min(a: nat, b: nat): nat {
    if a < b then a else b
  }

  /** The loop `for (key,_), t in zip(collected, translations)`. */
  method BuildMapping(items: seq<Item>, ts: seq<string>) returns (mapping: map<string, string>)
    ensures mapping == ZipMap(items, ts, Min(|items|, |ts|))
  {
    mapping := map[];
    var k := 0;
    while k < |items| && k < |ts|
      invariant 0 <= k <= Min(|items|, |ts|)
      invariant mapping == ZipMap(items, ts, k)
    {
      mapping := mapping[items[k].key := ts[k]];
      k := k + 1;
    }
  }

  /** Under numbered items the mapping sends token `i` to translation `i`
      for the first `k` tokens, and knows no other token. */
  lemma {:induction false} ZipMapNumbered(items: seq<Item>, us: seq<Unit>, ts: seq<string>, k: nat)
    requires Numbered(items, 0, us) && k <= |items| && k <= |ts|
    ensures forall i :: 0 <= i < k ==> Key(i) in ZipMap(items, ts, k) && ZipMap(items, ts, k)[Key(i)] == ts[i]
    ensures forall i: nat :: k <= i ==> Key(i) !in ZipMap(items, ts, k)
    decreases k
  {
    if k > 0 {
      ZipMapNumbered(items, us, ts, k - 1);
      assert items[k - 1].key == Key(k - 1);
      forall i: nat ensures i != k - 1 ==> Key(i) != Key(k - 1) {
        KeysDistinct(i, k - 1);
      }
    }
  }

  // ---------------------------------------------------------------------------
  // The whole function

  /** The translations the service produces for the units of chain `c`,
      sent in batches of `MaxItemsPerRequest`. */
  function DocumentTranslations(c: seq<Entry>, service: Service): seq<string> {
    Translations(Chunks(OriginalsList(c), Width(MaxItemsPerRequest)), service)
  }

  /** The mapping `translate_html_document` builds: `zip` stops at the
      shorter of the two lists. */
  function DocumentMapping(c: seq<Entry>, ts: seq<string>): map<string, string> {
    ZipMap(ItemsOf(c), ts, Min(|Units(c)|, |ts|))
  }

  /** What `translate_html_document` returns for the input `htmlInput`, which
      parses to `doc` the first time and to `reparsed` the second time. */
  function Outcome(htmlInput: string, doc: seq<Node>, reparsed: seq<Node>, service: Service): string {
    var c, c2 := DocumentChain(doc), DocumentChain(reparsed);
    if |Units(c2)| != |Units(c)| then htmlInput
    else Substitute(Serialize(Overlay(doc, Skeleton(c), 0)), DocumentMapping(c, DocumentTranslations(c2, service)))
  }

  /** `translate_html_document` after the client setup. */
  method TranslateHtmlDocument(htmlInput: string, doc: seq<Node>, reparsed: seq<Node>, service: Service) returns (result: string)
    ensures |Units(DocumentChain(reparsed))| != |Units(DocumentChain(doc))| ==> result == htmlInput
    ensures result == Outcome(htmlInput, doc, reparsed, service)
  {
    var c := DocumentChain(doc);
    var soup := new Entry[|c|](i requires 0 <= i < |c| => c[i]);
    assert soup[..] == c;
    var collected := CollectTranslatableNodes(soup);
    NumberedIsItemsOf(collected, c);
    var skeleton := soup[..];
    assert skeleton == Skeleton(c) && collected == ItemsOf(c);
    var c2 := DocumentChain(reparsed);
    var originals := CollectOriginals(c2);
    OriginalsAreList(originals, c2);
    if |originals| != |collected| {
      assert |Units(c2)| != |Units(c)|;
      return htmlInput;
    }
    var batches := Batched(originals, MaxItemsPerRequest);
    var translations := TranslateBatches(batches, service);
    assert translations == DocumentTranslations(c2, service);
    var mapping := BuildMapping(collected, translations);
    assert mapping == DocumentMapping(c, translations);
    var htmlWithKeys := Serialize(Overlay(doc, skeleton, 0));
    result := Substitute(htmlWithKeys, mapping);
    assert result == Substitute(Serialize(Overlay(doc, Skeleton(c), 0)), DocumentMapping(c, DocumentTranslations(c2, service)));
  }

  /** The service gives one translation per unit. */
  lemma TranslationsCount(c: seq<Entry>, service: Service)
    ensures |DocumentTranslations(c, service)| == |Units(c)|
  {
    var o := OriginalsList(c);
    ChunksShape(o, Width(MaxItemsPerRequest));
    TranslationsLength(Chunks(o, Width(MaxItemsPerRequest)), service);
  }

  /** With one translation per unit, token `i` resolves to translation `i`. */
  lemma MappingResolves(c: seq<Entry>, ts: seq<string>)
    requires |ts| == |Units(c)|
    ensures forall i :: 0 <= i < |Units(c)| ==> Restored(DocumentMapping(c, ts))(i) == ts[i]
  {
    ZipMapNumbered(ItemsOf(c), Units(c), ts, |Units(c)|);
  }

  /** Same parse both times: the result is the document with its units
      filled from the mapping, provided no string of the document contains a
      token. */
  lemma TranslatedDocument(htmlInput: string, doc: seq<Node>, service: Service)
    requires NoAdjacentText(doc) && PlainChain(DocumentChain(doc))
    ensures Outcome(htmlInput, doc, doc, service)
         == Serialize(Overlay(doc, Fill(DocumentChain(doc), Restored(DocumentMapping(DocumentChain(doc), DocumentTranslations(DocumentChain(doc), service)))), 0))
  {
    SkeletonRestores(doc, DocumentMapping(DocumentChain(doc), DocumentTranslations(DocumentChain(doc), service)));
  }

  /** ... and in that document unit `i` holds translation `i`. */
  lemma TranslationsPlaced(c: seq<Entry>, service: Service, i: nat)
    requires i < |Units(c)|
    ensures i < |DocumentTranslations(c, service)| && Units(c)[i].pos < |c|
    ensures SlotValue(Fill(c, Restored(DocumentMapping(c, DocumentTranslations(c, service))))[Units(c)[i].pos], Units(c)[i].kind)
         == DocumentTranslations(c, service)[i]
  {
    var ts := DocumentTranslations(c, service);
    TranslationsCount(c, service);
    MappingResolves(c, ts);
    FillSlot(c, Restored(DocumentMapping(c, ts)), i);
  }

  /** A service that echoes its input, or fails, gives every token its
      original string back. */
  lemma IdentityTranslations(c: seq<Entry>, service: Service)
    requires forall b :: service(b).None? || |service(b).value| != |b| || service(b).value == b
    ensures DocumentTranslations(c, service) == OriginalsList(c)
    ensures GivesOriginals(c, Restored(DocumentMapping(c, OriginalsList(c))))
  {
    var o := OriginalsList(c);
    ChunksShape(o, Width(MaxItemsPerRequest));
    TranslationsFallback(Chunks(o, Width(MaxItemsPerRequest)), service);
    MappingResolves(c, o);
  }

  /** ... so the result is the input document as the model's serializer
      writes it, without entity escaping. */
  lemma IdentityService(htmlInput: string, doc: seq<Node>, service: Service)
    requires NoAdjacentText(doc) && PlainChain(DocumentChain(doc))
    requires forall b :: service(b).None? || |service(b).value| != |b| || service(b).value == b
    ensures Outcome(htmlInput, doc, doc, service) == Serialize(doc)
  {
    var c := DocumentChain(doc);
    IdentityTranslations(c, service);
    TranslatedDocument(htmlInput, doc, service);
    FillIdentity(c, Restored(DocumentMapping(c, OriginalsList(c))));
    DocumentChainHolds(doc);
    OverlayOwnChain(doc, DocumentName, c, 0);
  }
}
