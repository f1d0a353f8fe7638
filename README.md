# Blog-Translation core in Dafny

This project models the two string and tree pipelines at the heart of the
Blog-Translation service and proves what they promise.

1. **The placeholder pipeline of `translator.py`.**
   - `_collect_translatable_nodes` walks the parsed document in document
     order. It replaces every eligible string, and then every eligible
     whitelisted attribute (`alt`, `title`, `placeholder`, `aria-label`), with
     a token `[[[T<n>]]]`. The counter starts at 0.
   - A second walk over a fresh parse collects the original strings.
   - `_batched` cuts the originals into batches of at most 120 items.
   - Every batch goes to the model service. The validation tail of
     `_call_openai` accepts a reply only if it is a list of the batch's
     length; otherwise the batch itself is kept.
   - The replies become a token-to-translation mapping. The serialized
     skeleton is rewritten by one left-to-right `re.sub` pass.
2. **The body chunker and page assembly of `app.py`.**
   - `split_html_intelligently` greedily packs the markup of the body's
     children into chunks of about `max_chunk_size` characters. A child that
     is too long is first cut after every `</p>`, `</div>`, `</li>` and `</tr>`.
   - `translate_html` translates the chunks and joins them. It then wraps them
     in a fixed `<html>` document with the head markup and the rendered body
     attributes.

## Modules

| module | file | what it holds |
|---|---|---|
| `Wrappers` | `wrappers.dfy` | `Option` |
| `Strings` | `strings.dfy` | `''.join`, `' '.join`, Python's white space, `strip`, `isspace`, decimal rendering |
| `Html` | `html.dfy` | nodes, attributes, `has_attr`/`get`/`tag[a] = v`, the `descendants` chain, the serializer |
| `Placeholder` | `placeholder.dfy` | tokens, the pattern `\[\[\[T\d+\]\]\]` and the `re.sub` scan |
| `Extract` | `extract.dfy` | eligibility, the units, both collection walks (over an `array` of chain entries) and what filling does |
| `Restore` | `restore.dfy` | substitution over the serialized skeleton |
| `Batching` | `batching.dfy` | `_batched` |
| `Gateway` | `gateway.dfy` | the service, the reply validation and the batch loop |
| `Translator` | `translator.dfy` | `translate_html_document` as a whole |
| `Chunker` | `chunker.dfy` | `re.split` on closers, the pieces, the greedy packing and `split_html_intelligently` |
| `Page` | `page.dfy` | the body attributes, the chunk-translation loop and the `final_html` wrapper |

**How the document is represented.**
- A document is a `seq<Node>`, where a node is a string, a comment or an
  element with attributes and children.
- BeautifulSoup's `descendants` is the chain `DocumentChain(doc)`: one entry
  per node, in pre-order.
- Each entry keeps what the walk reads and writes: a string with its parent's
  name, a comment, or a tag with its attributes.
- `_collect_translatable_nodes` updates that chain in place, as an `array`.
  `Overlay` puts the chain back on the tree's shape. `str(soup)` is
  `Serialize` of the result.
- In `split_html_intelligently`, `str(element)` of a child of `<body>` is
  `ChildString`: a comment child gives its bare text, without `<!--` and
  `-->`. Its text is then sent to translation with the rest of its chunk and
  stands in the page as visible text.

**Code and design notes disagree in three places; the model follows the code:**
- Only strings whose direct parent is `script` or `style` are skipped.
  `code`, `pre` and `svg` are translated like any other element
  (translator.py:16).
- When a reply is malformed, only that batch falls back to its own
  untranslated strings (translator.py:62-66). The document does not fall back
  as a whole.
- The whole-document fallback fires only when the two walks count different
  numbers of units (translator.py:99-100). When both parses give the same
  tree it cannot fire: `Outcome(html, doc, doc, service)` takes the
  substitution branch for every document, by its definition.

## Model

| member | source | states |
|---|---|---|
| Strings.StripNonEmptyIffHasText | translator.py:29 | `val.strip()` is non-empty exactly when `val` is non-empty and not all white space, so attributes and strings (line 19) use one test |
| Strings.StripIsNonEmpty | translator.py:29 | the truth value of `s.strip()` is true iff the string holds a non-space character |
| Strings.DecimalShape | translator.py:20 | the rendering of the counter is a non-empty run of ASCII digits with no leading zero unless it is 0 |
| Strings.DecimalInjective | translator.py:20 | two counters with the same rendering are equal |
| Html.FindUnique | translator.py:27-28 | `tag.get(a)` finds the first attribute named `a` |
| Html.GetSetSame | translator.py:31 | after `tag[a] = key` the attribute `a` reads back as `key` |
| Html.GetSetOther | translator.py:31 | `tag[a] = key` leaves every other attribute's value unchanged |
| Html.Descendants | translator.py:11 | the chain walks every node once: it has exactly one entry per node of the tree |
| Html.OverlayOwnChain | translator.py:110 | a chain that holds the document's own entries rebuilds the document unchanged |
| Placeholder.KeyInjective | translator.py:20 | different counters give different tokens |
| Placeholder.KeysDistinct | translator.py:30 | no two values of `idx` share a token |
| Placeholder.KeyMatches | translator.py:111 | the pattern matches a token whole, whatever text follows it |
| Placeholder.SubstituteKey | translator.py:111 | a lone token becomes `mapping[token]` when it is mapped, and stays itself otherwise |
| Placeholder.SubstituteNoMatch | translator.py:111 | text without a match is copied verbatim |
| Placeholder.SubstituteConcat | translator.py:111 | across a joint that no match can cross, the substitution of `a + b` is the substitution of `a` followed by that of `b` |
| Placeholder.SubstituteIdentityMapping | translator.py:111 | a mapping that sends every token to itself changes nothing |
| Extract.TestText | translator.py:12-19 | a node is taken iff it is a string, its parent is not `script`/`style`, and it is non-empty and not all white space |
| Extract.TestAttr | translator.py:27-29 | an attribute is taken iff the tag has it, its value is a string, and that value is not blank |
| Extract.CollectTagAttrs | translator.py:26-33 | the inner loop fills exactly the eligible whitelisted attributes of one tag with consecutive tokens from `idx0`, in whitelist order, and reports them |
| Extract.ReplaceTagAttrs | translator.py:25-33 | one tag gets its tokens; the items grow by that tag's attribute units, numbered on from the earlier ones |
| Extract.ReplaceEntryAttrs | translator.py:25-33 | one round of the tag loop: entry `k` is filled, no other entry changes, and the counter moves past entry `k`'s units |
| Extract.ReplaceTexts | translator.py:11-23 | the first loop replaces every eligible string by the next token from 0 and returns the text items numbered 0, 1, ... |
| Extract.ReplaceAttrs | translator.py:24-33 | the second loop finishes the skeleton, and the items cover all units in order |
| Extract.CollectTranslatableNodes | translator.py:8-34 | the chain becomes `Skeleton` of the old chain, and item `i` is `(Key(i), kind of unit i)` for every unit |
| Extract.CollectEntryOriginals | translator.py:92-97 | one tag of the originals walk adds the values of exactly its attribute units |
| Extract.CollectTagOriginals | translator.py:93-97 | the inner loop of the originals walk lists the values of one tag's attribute units |
| Extract.CollectOriginals | translator.py:80-97 | the originals walk gives the original string of every unit, in the collection order |
| Extract.UnitsAreSlots | translator.py:20-33 | the i-th unit is an eligible slot of the tree, and the counter gives it number i |
| Extract.SlotsAreUnits | translator.py:20-33 | every eligible slot is a unit, listed under the number the counter gives it |
| Extract.UnitsOrdered | translator.py:11-33 | items come strings first, strings in document order, then attributes by tag in document order and by whitelist rank within a tag |
| Extract.FillSlot | translator.py:20-31 | filling puts value i into the slot of unit i |
| Extract.FillKeepsText | translator.py:12-19 | comments and ineligible strings are unchanged; every string keeps its parent |
| Extract.FillKeepsTag | translator.py:26-31 | a tag keeps its name, attribute names and order, and the value of every attribute that is not replaced |
| Extract.FillIdentity | translator.py:89-97 | putting every unit's own original string back gives the chain unchanged |
| Restore.DocumentRestores | translator.py:110-111 | for a document without adjacent strings or token-shaped original text, substituting over the serialization of the document filled with `v1` gives the serialization of the document filled with `v2`, when each `v1(j)` substitutes to `v2(j)` |
| Restore.SkeletonRestores | translator.py:110-111 | `re.sub` over `str(soup)` gives the document whose unit i holds what token i maps to |
| Batching.Batched | translator.py:36-44 | `list(_batched(s, n))`: batches that concatenate to `s`, none empty, none over `n` (an `n` below 1 acts as 1), all but the last full; it equals the reference `Chunks` |
| Batching.ChunksShape | translator.py:36-44 | the reference batching has that shape |
| Batching.BatchesUnique | translator.py:36-44 | two batchings of that shape are the same, so the shape determines the generator's output |
| Gateway.Validate | translator.py:60-66 | the result has the batch's length; a reply of the batch's length is taken as it is, and a missing reply or a reply of another length gives the batch back unchanged |
| Gateway.TranslateBatches | translator.py:102-104 | the loop extends `translations` by each batch's validated reply; there is one translation per item |
| Gateway.TranslationsLength | translator.py:102-104 | the translations have as many entries as the batches have items |
| Gateway.TranslationAt | translator.py:102-104 | item `j` of batch `k` is translated at position (items of earlier batches) + `j` |
| Gateway.TranslationsFallback | translator.py:62-66 | a service that fails or echoes every batch leaves the items as they are |
| Translator.ItemKeysDistinct | translator.py:20-33 | the collected items carry pairwise distinct tokens |
| Translator.BuildMapping | translator.py:106-108 | the `zip` loop builds the mapping of the first `min(len(collected), len(translations))` pairs |
| Translator.ZipMapNumbered | translator.py:106-108 | for numbered items, the mapping sends token i to translation i for the first k tokens and knows no other token |
| Translator.TranslateHtmlDocument | translator.py:75-112 | returns `html_input` when the two walks count different numbers of units; otherwise it returns the substitution of the skeleton's serialization under the zip mapping of the batch-validated translations |
| Translator.TranslationsCount | translator.py:102-104 | the service yields exactly one translation per unit |
| Translator.MappingResolves | translator.py:106-111 | with one translation per unit, token i resolves to translation i |
| Translator.TranslatedDocument | translator.py:99-111 | with one parse, the size check passes, and the result is the document with every unit replaced by its resolved translation |
| Translator.TranslationsPlaced | translator.py:102-111 | for every document, filling the chain with the resolved translations puts translation i into the slot of unit i |
| Translator.IdentityTranslations | translator.py:102-108 | a failing or echoing service gives every token its own original string |
| Translator.IdentityService | translator.py:75-112 | with such a service, and a document without adjacent strings or token-shaped original text, the result is `Serialize(doc)`, the model's unescaped rendering of the parsed input: the document comes back unchanged |
| Chunker.ChildStringsConcat | app.py:33-34 | the strings `str(element)` of the children concatenate to the tag's inner markup with each direct comment child reduced to its bare text, and to the tag's own inner markup when it has no direct comment child |
| Chunker.CloserAt | app.py:37 | a reported closer lies inside the string and is one of `</p>`, `</div>`, `</li>`, `</tr>` |
| Chunker.PairsLength | app.py:38 | there is one piece per two parts of the split, rounded up |
| Chunker.PairsAt | app.py:38-39 | piece `n` is `paragraphs[2n] + paragraphs[2n + 1]`, or the last part alone |
| Chunker.SplitFromConcat | app.py:37-39 | the pieces of the split concatenate back to the child string |
| Chunker.SplitFromCuts | app.py:37-39 | every piece but the last is closer-free text ending in the closer that follows it, and the last holds no closer |
| Chunker.ChildPieces | app.py:36-39 | an oversized child is cut after each closer and nowhere else and its pieces rebuild it; any other child is one piece |
| Chunker.PiecesConcat | app.py:33-39 | the pieces of all children concatenate to the children's markup |
| Chunker.PackPacked | app.py:40-51 | the packing keeps the non-empty pieces in order, never finishes an empty chunk, keeps a multi-piece chunk within `max`, and finishes a chunk only when the next piece does not fit |
| Chunker.StepPacked | app.py:40-51 | one round of the packing loop keeps the pieces in order, the size bound and the greedy finish |
| Chunker.ClosePacked | app.py:53-54 | the final append keeps all of that for the closed chunk list |
| Chunker.BodyPacked | app.py:32-54 | the body's chunk groups have these properties |
| Chunker.ChunksConcat | app.py:32-54 | the chunks concatenate to the concatenation of `str(child)` over the body's children |
| Chunker.ChunksNonEmpty | app.py:41-54 | no chunk is the empty string |
| Chunker.ChunksOfPieces | app.py:40-51 | each chunk is a run of whole pieces, and a chunk longer than `max` is a single piece |
| Chunker.ChunksGreedy | app.py:40-51 | chunk k was finished only because the first piece of chunk k + 1 did not fit |
| Chunker.ShortChildrenWhole | app.py:36 | when no child exceeds `max`, the pieces are the children themselves: nothing is divided |
| Chunker.SplitHtmlIntelligently | app.py:21-56 | returns the head markup (or `""`) and the chunks of the greedy packing of the pieces, with no chunks without a body |
| Chunker.PackParagraphs | app.py:37-45 | the inner loop packs the split pieces of one oversized child, one after another |
| Chunker.PackTextMirrors | app.py:40-51 | the strings the loop keeps are the chunk texts of the packing |
| Chunker.StepStrings | app.py:40-51 | one round of the loop on strings is one `Step` on the packing |
| Chunker.CloseText | app.py:53-54 | `if current_chunk: chunks.append(current_chunk)` on strings is `Close` on the packing |
| Page.BodyAttrsSerialized | app.py:157-161 | with at least one attribute, a space followed by `body_attrs` is exactly the body's attributes as the serializer writes them |
| Page.BodyOpenTag | app.py:165 | so `<body {body_attrs}>` is the body's own start tag, as the model's unescaped serializer writes it, whenever it has attributes |
| Page.WrapContent | app.py:163-168 | the body content stands between a prefix fixed by head and attributes and the fixed `</body></html>` suffix, and can be read back out |
| Page.TranslateChunks | app.py:142-149 | the loop's result holds the translation of every chunk, in order |
| Page.TranslateHtml | app.py:139-168 | `final_html` is the wrapper around the head markup, the body attributes and the joined translations of the chunks of the body's `str(element)` strings, a direct comment child giving its bare text |
| Page.IdentityPage | app.py:152-168 | with a translator that changes nothing, the page holds the head's markup and the body's inner markup, where a direct comment child of the body loses its `<!--`/`-->` delimiters and stands as bare text |

## Left out

- **OpenAI calls.** `client.responses.create` (translator.py:53-57) and
  `translate_chunk_with_openai`, with its `model_not_found` retry
  (app.py:66-114), are network calls. The model service is a function
  parameter, `Service` for batches and `translate` for chunks.
  - An exception raised by either call aborts the request. This is not
    modelled: both parameters are total functions.
- **Decoding the reply** (translator.py:58-61). Stripping code fences,
  `json.loads` and `str(x)` are not modelled. The service returns the decoded
  list as `Option<seq<string>>`, with `None` for text that is not JSON or not
  a list.
- **Parsing.** BeautifulSoup parsing is not modelled, and the document is an
  argument.
  - The second parse `soup2` (translator.py:79) is a separate argument
    `reparsed`, so the size-mismatch branch stays reachable.
  - The parse in `translate_html` (app.py:154) is taken to give the same body
    as the one in `split_html_intelligently`.
  - Doctype, CData and other string subclasses are not modelled.
- **Serialization.**
  - Html.Serialize: writes markup without entity escaping and without void
    elements. It is a stand-in for BeautifulSoup's output formatter, which is
    not part of this model. The real `str(soup)` escapes `&`, `<` and `>` in
    strings and attribute values, while `re.sub` (translator.py:111) puts
    each mapped string in raw, and `f'{k}="{v}"'` (app.py:161) writes `"`,
    `&` and `<` raw. The model writes all of these raw, so it does not
    show where the program's escaped and raw text meet.
  - The `descendants` generator reacting to `replace_with` during the walk is
    modelled as an update of the chain entry in place. The model assumes the
    walk goes on past a replaced string to the next node in document order;
    whether the generator does so depends on how the BeautifulSoup version in
    use relinks an extracted string.
- **Script and style.** Strings are skipped only when their direct parent is
  `script` or `style`, exactly as the code tests. Content under a deeper
  descendant of those tags is not excluded.
- Restore.DocumentRestores: stated only for documents with the two
  properties below (`NoAdjacentText` and `PlainChain`).
- Restore.SkeletonRestores: stated only for documents with two properties.
  No two strings are adjacent (`NoAdjacentText`). No original string, tag
  name or attribute holds token-shaped text (`PlainChain`). In other
  documents `re.sub` can also rewrite text the code did not put there; the
  model computes that case (`Outcome`) but proves nothing about it. The
  restored document is written by the unescaped `Serialize`. The program
  puts unescaped original text into escaped markup, so a string written
  `a &lt; b` in the input comes back as `a < b`; the model does not show
  this.
- Translator.TranslatedDocument: stated under the same two document
  properties.
- Translator.IdentityService: stated under the same two document properties,
  and against the unescaped `Serialize`, not BeautifulSoup's escaping
  formatter.
- Placeholder.MatchAt: `\d` is taken as the ASCII digits. Python also matches
  other Unicode decimal digits. Every token the code writes uses ASCII
  digits, and an unmapped match is written back unchanged, so this does not
  change the result.
- **Runtime plumbing left out.**
  - The Flask routes and request framing (app.py:120-136, 169 onwards).
  - The API-key checks (translator.py:69-73, app.py:12-16).
  - `time.sleep`, `print` and `traceback`.
  - The `try`/`except ... raise` around `split_html_intelligently`, which
    only logs and re-raises.
