/** `_collect_translatable_nodes` and the originals pass of
    `translate_html_document`: which strings of the document are translatable
    units, in which order, and the skeleton that holds a token in place of each. */
module Extract {
  import opened Wrappers
  import opened Strings
  import opened Html
  import opened Placeholder

  /** The attributes whose values are translated, in the order they are tried. */
  const AttrNames: seq<string> := ["alt", "title", "placeholder", "aria-label"]

  /** Tags whose strings are never translated. */
  const SkippedParents: set<string> := {"script", "style"}

  /** Where a unit lives in its chain entry: the string itself, or the
      attribute `AttrNames[rank]`. */
  datatype Kind = TextNode | Attr(rank: nat)

  /** A translatable unit: its position in the chain and its slot there. */
  datatype Unit = Unit(pos: nat, kind: Kind)

  /** An entry of the returned `items` list: the token and what it stands for. */
  datatype Item = Item(key: string, kind: Kind)

  /** How the source spells an item's kind: `"text"` or `"attr:<name>"`. */
  function Label(k: Kind): string {
    match k
    case TextNode => "text"
    case Attr(r) => "attr:" + AttrName(r)
  }

  /** The name of the `r`-th whitelisted attribute. */
  function AttrName(r: nat): string {
    if r < |AttrNames| then AttrNames[r] else ""
  }

  /** A string is collected unless it is a comment, sits directly in
      `<script>`/`<style>`, or is empty or white space only. */
  predicate EligibleText(e: Entry) {
    e.TextEntry? && e.parent !in SkippedParents && HasText(e.text)
  }

  /** An attribute is collected when the tag has it and its value is a string
      that is not empty after `strip()` (by `StripNonEmptyIffHasText`, a string
      that is not all white space). */
  predicate EligibleAttr(attrs: seq<Attribute>, a: string) {
    EligibleValue(GetAttr(attrs, a))
  }

  predicate EligibleValue(v: Option<AttrValue>) {
    v.Some? && v.value.Str? && HasText(v.value.s)
  }

  // ---------------------------------------------------------------------------
  // The units, in collection order

  /** The strings the first pass collects from the first `k` entries of `c`. */
  function TextUnitsUpTo(c: seq<Entry>, k: nat): seq<Unit>
    requires k <= |c|
    decreases k
  {
    if k == 0 then []
    else TextUnitsUpTo(c, k - 1) + (if EligibleText(c[k - 1]) then [Unit(k - 1, TextNode)] else [])
  }

  /** The attributes the second pass collects from one tag at position `p`,
      among the first `m` names of `AttrNames`. */
  function TagUnits(attrs: seq<Attribute>, p: nat, m: nat): seq<Unit>
    requires m <= |AttrNames|
    decreases m
  {
    if m == 0 then []
    else TagUnits(attrs, p, m - 1) + (if EligibleAttr(attrs, AttrNames[m - 1]) then [Unit(p, Attr(m - 1))] else [])
  }

  function EntryAttrUnits(e: Entry, p: nat): seq<Unit> {
    if e.TagEntry? then TagUnits(e.attrs, p, |AttrNames|) else []
  }

  /** The attributes the second pass collects from the first `k` entries of
      `c`: tags in chain order, and within a tag the order of `AttrNames`. */
  function AttrUnitsUpTo(c: seq<Entry>, k: nat): seq<Unit>
    requires k <= |c|
    decreases k
  {
    if k == 0 then [] else AttrUnitsUpTo(c, k - 1) + EntryAttrUnits(c[k - 1], k - 1)
  }

  function TextUnits(c: seq<Entry>): seq<Unit> {
    TextUnitsUpTo(c, |c|)
  }

  function AttrUnits(c: seq<Entry>): seq<Unit> {
    AttrUnitsUpTo(c, |c|)
  }

  /** All units: every collected string, then every collected attribute. */
  function Units(c: seq<Entry>): seq<Unit> {
    TextUnits(c) + AttrUnits(c)
  }

  /** The value of whitelisted attribute `r` if it is a string, else "". */
  function AttrValueOf(attrs: seq<Attribute>, r: nat): string {
    match GetAttr(attrs, AttrName(r))
    case Some(Str(v)) => v
    case _ => ""
  }

  /** What a unit's slot holds in entry `e` ("" when `e` has no such slot). */
  function SlotValue(e: Entry, k: Kind): string {
    match k
    case TextNode => if e.TextEntry? then e.text else ""
    case Attr(r) => if e.TagEntry? then AttrValueOf(e.attrs, r) else ""
  }

  /** The original string of a unit. */
  function Original(c: seq<Entry>, u: Unit): string {
    if u.pos < |c| then SlotValue(c[u.pos], u.kind) else ""
  }

  /** `items` lists units `us` numbered from `base`: the i-th item is the
      i-th unit's kind under the token `[[[T<base+i>]]]`. */
  predicate Numbered(items: seq<Item>, base: nat, us: seq<Unit>) {
    |items| == |us| && forall i :: 0 <= i < |us| ==> items[i] == Item(Key(base + i), us[i].kind)
  }

  /** `vals` lists the original strings of units `us` of chain `c`, in order. */
  predicate OriginalsOf(vals: seq<string>, c: seq<Entry>, us: seq<Unit>) {
    |vals| == |us| && forall i :: 0 <= i < |us| ==> vals[i] == Original(c, us[i])
  }

  // ---------------------------------------------------------------------------
  // Filling the units' slots: with tokens (the skeleton) or with translations

  /** The attributes `attrs` of the tag at chain position `p` with the slots
      of their eligible names among the first `m` of `AttrNames` filled with
      `vals(base)`, `vals(base + 1)`, ... */
  function FillAttrs(attrs: seq<Attribute>, vals: nat -> string, base: nat, p: nat, m: nat): (r: seq<Attribute>)
    requires m <= |AttrNames|
    ensures |r| == |attrs|
    decreases m
  {
    if m == 0 then attrs
    else
      var prev := FillAttrs(attrs, vals, base, p, m - 1);
      var a := AttrNames[m - 1];
      if EligibleAttr(attrs, a) then SetAttr(prev, a, Str(vals(base + |TagUnits(attrs, p, m - 1)|))) else prev
  }

  /** Entry `p` of chain `c` once the string units have their slots filled. */
  function FillText(c: seq<Entry>, vals: nat -> string, p: nat): Entry
    requires p < |c|
  {
    if EligibleText(c[p]) then TextEntry(vals(|TextUnitsUpTo(c, p)|), c[p].parent) else c[p]
  }

  /** Entry `p` of chain `c` once every unit has its slot filled: the i-th unit
      (in `Units` order) receives `vals(i)`. */
  function FillEntry(c: seq<Entry>, vals: nat -> string, p: nat): Entry
    requires p < |c|
  {
    match c[p]
    case TagEntry(name, attrs) =>
      TagEntry(name, FillAttrs(attrs, vals, |TextUnits(c)| + |AttrUnitsUpTo(c, p)|, p, |AttrNames|))
    case _ => FillText(c, vals, p)
  }

  /** The chain once every unit has its slot filled: the i-th unit receives `vals(i)`. */
  function Fill(c: seq<Entry>, vals: nat -> string): (r: seq<Entry>)
    ensures |r| == |c|
  {
    seq(|c|, p requires 0 <= p < |c| => FillEntry(c, vals, p))
  }

  /** The chain once `_collect_translatable_nodes` has put a token in every unit. */
  function Skeleton(c: seq<Entry>): seq<Entry> {
    Fill(c, Key)
  }

  /** The first `k` entries of `Fill(c, vals)`. */
  function FillPrefix(c: seq<Entry>, vals: nat -> string, k: nat): (r: seq<Entry>)
    requires k <= |c|
    ensures |r| == k
    decreases k
  {
    if k == 0 then [] else FillPrefix(c, vals, k - 1) + [FillEntry(c, vals, k - 1)]
  }

  lemma {:induction false} FillPrefixAt(c: seq<Entry>, vals: nat -> string, k: nat)
    requires k <= |c|
    ensures forall j :: 0 <= j < k ==> FillPrefix(c, vals, k)[j] == FillEntry(c, vals, j)
    decreases k
  {
    if k > 0 {
      FillPrefixAt(c, vals, k - 1);
    }
  }

  lemma FillPrefixFull(c: seq<Entry>, vals: nat -> string)
    ensures FillPrefix(c, vals, |c|) == Fill(c, vals)
  {
    FillPrefixAt(c, vals, |c|);
  }

  lemma FillAt(c: seq<Entry>, vals: nat -> string, p: nat)
    requires p < |c|
    ensures Fill(c, vals)[p] == FillEntry(c, vals, p)
  {
  }

  lemma FillEntryTag(c: seq<Entry>, vals: nat -> string, p: nat)
    requires p < |c| && c[p].TagEntry?
    ensures FillEntry(c, vals, p)
      == TagEntry(c[p].name, FillAttrs(c[p].attrs, vals, |TextUnits(c)| + |AttrUnitsUpTo(c, p)|, p, |AttrNames|))
  {
  }

  lemma FillEntryOther(c: seq<Entry>, vals: nat -> string, p: nat)
    requires p < |c| && !c[p].TagEntry?
    ensures FillEntry(c, vals, p) == FillText(c, vals, p)
  {
  }

  // ---------------------------------------------------------------------------
  // Bookkeeping for the passes

  lemma NumberedSnoc(items: seq<Item>, base: nat, us: seq<Unit>, u: Unit)
    requires Numbered(items, base, us)
    ensures Numbered(items + [Item(Key(base + |us|), u.kind)], base, us + [u])
  {
    var items', us' := items + [Item(Key(base + |us|), u.kind)], us + [u];
    forall i | 0 <= i < |us'| ensures items'[i] == Item(Key(base + i), us'[i].kind) {
      if i < |us| { assert items'[i] == items[i] && us'[i] == us[i]; }
    }
  }

  lemma NumberedAppend(items: seq<Item>, us: seq<Unit>, found: seq<Item>, vs: seq<Unit>)
    requires Numbered(items, 0, us) && Numbered(found, |us|, vs)
    ensures Numbered(items + found, 0, us + vs)
  {
    var l, ws := items + found, us + vs;
    forall i | 0 <= i < |ws| ensures l[i] == Item(Key(i), ws[i].kind) {
      if i < |us| {
        assert l[i] == items[i] && ws[i] == us[i];
      } else {
        assert l[i] == found[i - |us|] && ws[i] == vs[i - |us|];
      }
    }
  }

  lemma OriginalsSnoc(vals: seq<string>, c: seq<Entry>, us: seq<Unit>, u: Unit)
    requires OriginalsOf(vals, c, us)
    ensures OriginalsOf(vals + [Original(c, u)], c, us + [u])
  {
    var vals', us' := vals + [Original(c, u)], us + [u];
    forall i | 0 <= i < |us'| ensures vals'[i] == Original(c, us'[i]) {
      if i < |us| { assert vals'[i] == vals[i] && us'[i] == us[i]; }
    }
  }

  lemma OriginalsAppend(vals: seq<string>, c: seq<Entry>, us: seq<Unit>, more: seq<string>, vs: seq<Unit>)
    requires OriginalsOf(vals, c, us) && OriginalsOf(more, c, vs)
    ensures OriginalsOf(vals + more, c, us + vs)
  {
    var l, ws := vals + more, us + vs;
    forall i | 0 <= i < |ws| ensures l[i] == Original(c, ws[i]) {
      if i < |us| {
        assert l[i] == vals[i] && ws[i] == us[i];
      } else {
        assert l[i] == more[i - |us|] && ws[i] == vs[i - |us|];
      }
    }
  }

  /** The names of the whitelist are pairwise different. */
  lemma AttrNamesDistinct()
    ensures forall r, q :: 0 <= r < q < |AttrNames| ==> AttrNames[r] != AttrNames[q]
  {
  }

  /** Filling the first `m` names leaves alone the value of any name that is
      not among them or that is not eligible. */
  lemma {:induction false} FillAttrsGetOther(attrs: seq<Attribute>, vals: nat -> string, base: nat, p: nat, m: nat, a: string)
    requires m <= |AttrNames|
    requires forall r :: 0 <= r < m ==> AttrNames[r] != a || !EligibleAttr(attrs, a)
    ensures GetAttr(FillAttrs(attrs, vals, base, p, m), a) == GetAttr(attrs, a)
    decreases m
  {
    if m > 0 {
      FillAttrsGetOther(attrs, vals, base, p, m - 1, a);
      var prev := FillAttrs(attrs, vals, base, p, m - 1);
      var b := AttrNames[m - 1];
      if EligibleAttr(attrs, b) {
        GetSetOther(prev, b, a, Str(vals(base + |TagUnits(attrs, p, m - 1)|)));
      }
    }
  }

  /** Name `m` is still untouched once the first `m` names are filled. */
  lemma TagStepValue(attrs: seq<Attribute>, vals: nat -> string, base: nat, p: nat, m: nat)
    requires m < |AttrNames|
    ensures GetAttr(FillAttrs(attrs, vals, base, p, m), AttrNames[m]) == GetAttr(attrs, AttrNames[m])
  {
    AttrNamesDistinct();
    FillAttrsGetOther(attrs, vals, base, p, m, AttrNames[m]);
  }

  /** One round of the inner loop: name `m` is filled with the token the
      count of earlier eligible names selects, when it is eligible. */
  lemma FillAttrsStep(attrs: seq<Attribute>, vals: nat -> string, base: nat, p: nat, m: nat, keep: bool)
    requires m < |AttrNames|
    requires keep == EligibleAttr(attrs, AttrNames[m])
    ensures FillAttrs(attrs, vals, base, p, m + 1)
      == if keep then SetAttr(FillAttrs(attrs, vals, base, p, m), AttrNames[m], Str(vals(base + |TagUnits(attrs, p, m)|)))
         else FillAttrs(attrs, vals, base, p, m)
    ensures TagUnits(attrs, p, m + 1) == TagUnits(attrs, p, m) + (if keep then [Unit(p, Attr(m))] else [])
  {
  }

  lemma FillAttrsKeep(attrs: seq<Attribute>, vals: nat -> string, base: nat, p: nat, m: nat)
    requires 0 < m <= |AttrNames| && EligibleAttr(attrs, AttrNames[m - 1])
    ensures FillAttrs(attrs, vals, base, p, m)
      == SetAttr(FillAttrs(attrs, vals, base, p, m - 1), AttrNames[m - 1], Str(vals(base + |TagUnits(attrs, p, m - 1)|)))
  {
  }

  lemma FillAttrsSkip(attrs: seq<Attribute>, vals: nat -> string, base: nat, p: nat, m: nat)
    requires 0 < m <= |AttrNames| && !EligibleAttr(attrs, AttrNames[m - 1])
    ensures FillAttrs(attrs, vals, base, p, m) == FillAttrs(attrs, vals, base, p, m - 1)
  {
  }

  // ---------------------------------------------------------------------------
  // The two passes of `_collect_translatable_nodes`

  /** `text and not text.isspace()` for a string outside `<script>`/`<style>`. */
  method TestText(e: Entry) returns (keep: bool)
    ensures keep == EligibleText(e)
  {
    keep := false;
    if e.CommentEntry? {
    } else if e.TextEntry? {
      if e.parent !in {"script", "style"} {
        var text := e.text;
        keep := text != "" && !IsSpace(text);
      }
    }
  }

  /** `tag.has_attr(a)`, then `isinstance(val, str) and val.strip()`. */
  method TestAttr(attrs: seq<Attribute>, a: string) returns (keep: bool)
    ensures keep == EligibleAttr(attrs, a)
  {
    keep := false;
    var val := GetAttr(attrs, a);
    if val.Some? && val.value.Str? {
      keep := StripIsNonEmpty(val.value.s);
    }
  }

  /** The inner loop of the second pass, on the tag at chain position `p`:
      each whitelisted attribute with a non-blank string value gets the next
      token, counting from `idx0`. */
  method CollectTagAttrs(attrs: seq<Attribute>, ghost p: nat, idx0: nat)
      returns (filled: seq<Attribute>, found: seq<Item>, idx: nat)
    ensures filled == FillAttrs(attrs, Key, idx0, p, |AttrNames|)
    ensures Numbered(found, idx0, TagUnits(attrs, p, |AttrNames|))
    ensures idx == idx0 + |found|
  {
    filled, found, idx := attrs, [], idx0;
    var m := 0;
    while m < |AttrNames|
      invariant 0 <= m <= |AttrNames|
      invariant filled == FillAttrs(attrs, Key, idx0, p, m)
      invariant Numbered(found, idx0, TagUnits(attrs, p, m))
      invariant idx == idx0 + |found|
    {
      var a := AttrNames[m];
      TagStepValue(attrs, Key, idx0, p, m);
      var keep := TestAttr(filled, a);
      FillAttrsStep(attrs, Key, idx0, p, m, keep);
      if keep {
        var key := Key(idx);
        filled := SetAttr(filled, a, Str(key));
        NumberedSnoc(found, idx0, TagUnits(attrs, p, m), Unit(p, Attr(m)));
        found := found + [Item(key, Attr(m))];
        idx := idx + 1;
      }
      m := m + 1;
    }
  }

  /** The second pass on one tag at chain position `p`, with the items `pre`
      the earlier entries produced: the tag with its tokens in place, and the
      items extended by its units. */
  method ReplaceTagAttrs(node: Entry, ghost p: nat, ghost pre: seq<Unit>, items0: seq<Item>, idx0: nat)
      returns (e: Entry, items: seq<Item>, idx: nat)
    requires node.TagEntry?
    requires Numbered(items0, 0, pre) && idx0 == |pre|
    ensures e == TagEntry(node.name, FillAttrs(node.attrs, Key, idx0, p, |AttrNames|))
    ensures Numbered(items, 0, pre + TagUnits(node.attrs, p, |AttrNames|))
    ensures idx == |pre| + |TagUnits(node.attrs, p, |AttrNames|)|
  {
    var filled, found;
    filled, found, idx := CollectTagAttrs(node.attrs, p, idx0);
    e := TagEntry(node.name, filled);
    NumberedAppend(items0, pre, found, TagUnits(node.attrs, p, |AttrNames|));
    items := items0 + found;
  }

  /** A tag adds its own attribute units, and its entry is filled from them. */
  lemma AttrUnitsTag(c: seq<Entry>, k: nat)
    requires k < |c| && c[k].TagEntry?
    ensures TextUnits(c) + AttrUnitsUpTo(c, k + 1) == TextUnits(c) + AttrUnitsUpTo(c, k) + TagUnits(c[k].attrs, k, |AttrNames|)
    ensures FillEntry(c, Key, k)
      == TagEntry(c[k].name, FillAttrs(c[k].attrs, Key, |TextUnits(c)| + |AttrUnitsUpTo(c, k)|, k, |AttrNames|))
  {
    FillEntryTag(c, Key, k);
  }

  /** An entry that is not a tag adds no attribute units. */
  lemma AttrUnitsSkip(c: seq<Entry>, k: nat)
    requires k < |c| && !c[k].TagEntry?
    ensures AttrUnitsUpTo(c, k + 1) == AttrUnitsUpTo(c, k)
  {
    assert EntryAttrUnits(c[k], k) == [];
  }

  /** The first loop of `_collect_translatable_nodes`: every eligible string
      of the chain is replaced by the next token, counting from 0. */
  method ReplaceTexts(soup: array<Entry>) returns (items: seq<Item>, idx: nat)
    modifies soup
    ensures forall j :: 0 <= j < soup.Length ==> soup[j] == FillText(old(soup[..]), Key, j)
    ensures Numbered(items, 0, TextUnits(old(soup[..])))
    ensures idx == |items|
  {
    ghost var c := soup[..];
    items := [];
    idx := 0;
    var k := 0;
    while k < soup.Length
      invariant 0 <= k <= soup.Length
      invariant idx == |TextUnitsUpTo(c, k)|
      invariant Numbered(items, 0, TextUnitsUpTo(c, k))
      invariant forall j :: 0 <= j < k ==> soup[j] == FillText(c, Key, j)
      invariant forall j :: k <= j < soup.Length ==> soup[j] == c[j]
    {
      var node := soup[k];
      var keep := TestText(node);
      if keep {
        var key := Key(idx);
        soup[k] := TextEntry(key, node.parent);
        NumberedSnoc(items, 0, TextUnitsUpTo(c, k), Unit(k, TextNode));
        items := items + [Item(key, TextNode)];
        idx := idx + 1;
      }
      k := k + 1;
    }
  }

  /** The second loop of `_collect_translatable_nodes`, on the chain `c` whose
      strings are already replaced: the whitelisted attributes of every tag,
      in chain order, get the next tokens. */
  method ReplaceAttrs(soup: array<Entry>, ghost c: seq<Entry>, items0: seq<Item>, idx0: nat) returns (items: seq<Item>, idx: nat)
    requires soup.Length == |c|
    requires forall j :: 0 <= j < |c| ==> soup[j] == FillText(c, Key, j)
    requires Numbered(items0, 0, TextUnits(c)) && idx0 == |items0|
    modifies soup
    ensures soup[..] == Skeleton(c)
    ensures Numbered(items, 0, Units(c))
  {
    items, idx := items0, idx0;
    ghost var done := [];
    var k := 0;
    while k < soup.Length
      invariant 0 <= k <= soup.Length
      invariant idx == |TextUnits(c)| + |AttrUnitsUpTo(c, k)|
      invariant Numbered(items, 0, TextUnits(c) + AttrUnitsUpTo(c, k))
      invariant done == FillPrefix(c, Key, k)
      invariant forall j :: 0 <= j < k ==> soup[j] == done[j]
      invariant forall j :: k <= j < soup.Length ==> soup[j] == FillText(c, Key, j)
    {
      items, idx := ReplaceEntryAttrs(soup, c, k, items, idx);
      done := done + [soup[k]];
      k := k + 1;
    }
    FillPrefixFull(c, Key);
    assert soup[..] == done;
  }

  /** One round of the second loop: entry `k`, if it is a tag, gets the next
      tokens in its whitelisted attributes; no other entry changes. */
  method ReplaceEntryAttrs(soup: array<Entry>, ghost c: seq<Entry>, k: nat, items0: seq<Item>, idx0: nat)
      returns (items: seq<Item>, idx: nat)
    requires soup.Length == |c| && k < |c| && soup[k] == FillText(c, Key, k)
    requires idx0 == |TextUnits(c)| + |AttrUnitsUpTo(c, k)|
    requires Numbered(items0, 0, TextUnits(c) + AttrUnitsUpTo(c, k))
    modifies soup
    ensures soup[k] == FillEntry(c, Key, k)
    ensures forall j :: 0 <= j < soup.Length && j != k ==> soup[j] == old(soup[j])
    ensures idx == |TextUnits(c)| + |AttrUnitsUpTo(c, k + 1)|
    ensures Numbered(items, 0, TextUnits(c) + AttrUnitsUpTo(c, k + 1))
  {
    var node := soup[k];
    if node.TagEntry? {
      assert node == c[k];
      AttrUnitsTag(c, k);
      var e;
      e, items, idx := ReplaceTagAttrs(node, k, TextUnits(c) + AttrUnitsUpTo(c, k), items0, idx0);
      soup[k] := e;
    } else {
      FillEntryOther(c, Key, k);
      AttrUnitsSkip(c, k);
      items, idx := items0, idx0;
    }
  }

  /** `_collect_translatable_nodes(soup)`, with the soup's `descendants` chain
      as the array it updates in place: the first loop replaces every eligible
      string, the second every eligible attribute, each with the next token. */
  method CollectTranslatableNodes(soup: array<Entry>) returns (items: seq<Item>)
    modifies soup
    ensures soup[..] == Skeleton(old(soup[..]))
    ensures Numbered(items, 0, Units(old(soup[..])))
  {
    ghost var c := soup[..];
    var idx;
    items, idx := ReplaceTexts(soup);
    items, idx := ReplaceAttrs(soup, c, items, idx);
  }

  // ---------------------------------------------------------------------------
  // The originals pass of `translate_html_document`

  /** The inner loop of the originals pass on the tag at chain position `p`. */
  method CollectTagOriginals(attrs: seq<Attribute>, ghost c: seq<Entry>, ghost p: nat) returns (vals: seq<string>)
    requires p < |c| && c[p].TagEntry? && c[p].attrs == attrs
    ensures OriginalsOf(vals, c, TagUnits(attrs, p, |AttrNames|))
  {
    vals := [];
    var m := 0;
    while m < |AttrNames|
      invariant 0 <= m <= |AttrNames|
      invariant OriginalsOf(vals, c, TagUnits(attrs, p, m))
    {
      var a := AttrNames[m];
      var keep := TestAttr(attrs, a);
      if keep {
        var val := GetAttr(attrs, a).value.s;
        assert Original(c, Unit(p, Attr(m))) == val;
        OriginalsSnoc(vals, c, TagUnits(attrs, p, m), Unit(p, Attr(m)));
        vals := vals + [val];
      }
      m := m + 1;
    }
  }

  /** The `originals` list, collected from a second parse of the input:
      the same walk as `_collect_translatable_nodes`, keeping each unit's
      string instead of replacing it. */
  method CollectOriginals(c: seq<Entry>) returns (originals: seq<string>)
    ensures OriginalsOf(originals, c, Units(c))
  {
    originals := [];
    var k := 0;
    while k < |c|
      invariant 0 <= k <= |c|
      invariant OriginalsOf(originals, c, TextUnitsUpTo(c, k))
    {
      var keep := TestText(c[k]);
      if keep {
        OriginalsSnoc(originals, c, TextUnitsUpTo(c, k), Unit(k, TextNode));
        originals := originals + [c[k].text];
      }
      k := k + 1;
    }
    k := 0;
    while k < |c|
      invariant 0 <= k <= |c|
      invariant OriginalsOf(originals, c, TextUnits(c) + AttrUnitsUpTo(c, k))
    {
      originals := CollectEntryOriginals(c, k, originals);
      k := k + 1;
    }
  }

  /** One step of the attribute pass of the originals walk: the entry at
      position `k` adds the values of its attribute units. */
  method CollectEntryOriginals(c: seq<Entry>, k: nat, originals0: seq<string>) returns (originals: seq<string>)
    requires k < |c| && OriginalsOf(originals0, c, TextUnits(c) + AttrUnitsUpTo(c, k))
    ensures OriginalsOf(originals, c, TextUnits(c) + AttrUnitsUpTo(c, k + 1))
  {
    if c[k].TagEntry? {
      var vals := CollectTagOriginals(c[k].attrs, c, k);
      OriginalsAppend(originals0, c, TextUnits(c) + AttrUnitsUpTo(c, k), vals, TagUnits(c[k].attrs, k, |AttrNames|));
      AttrUnitsTag(c, k);
      originals := originals0 + vals;
    } else {
      AttrUnitsSkip(c, k);
      originals := originals0;
    }
  }

  // ---------------------------------------------------------------------------
  // Which slots are units, and in which order

  /** Slot `u` of chain `c` is collected: an eligible string, or an eligible
      whitelisted attribute of a tag. */
  predicate IsSlot(c: seq<Entry>, u: Unit) {
    && u.pos < |c|
    && match u.kind
       case TextNode => EligibleText(c[u.pos])
       case Attr(r) => c[u.pos].TagEntry? && r < |AttrNames| && EligibleAttr(c[u.pos].attrs, AttrNames[r])
  }

  /** The counter value a collected slot receives: the number of units the
      walk meets before it. */
  function SlotNumber(c: seq<Entry>, u: Unit): nat
    requires IsSlot(c, u)
  {
    match u.kind
    case TextNode => |TextUnitsUpTo(c, u.pos)|
    case Attr(r) => |TextUnits(c)| + |AttrUnitsUpTo(c, u.pos)| + |TagUnits(c[u.pos].attrs, u.pos, r)|
  }

  lemma {:induction false} TextUnitsGrow(c: seq<Entry>, j: nat, k: nat)
    requires j <= k <= |c|
    ensures |TextUnitsUpTo(c, j)| <= |TextUnitsUpTo(c, k)|
    ensures forall i :: 0 <= i < |TextUnitsUpTo(c, j)| ==> TextUnitsUpTo(c, k)[i] == TextUnitsUpTo(c, j)[i]
    decreases k
  {
    if j < k {
      TextUnitsGrow(c, j, k - 1);
    }
  }

  lemma {:induction false} TagUnitsGrow(attrs: seq<Attribute>, p: nat, j: nat, m: nat)
    requires j <= m <= |AttrNames|
    ensures |TagUnits(attrs, p, j)| <= |TagUnits(attrs, p, m)|
    ensures forall i :: 0 <= i < |TagUnits(attrs, p, j)| ==> TagUnits(attrs, p, m)[i] == TagUnits(attrs, p, j)[i]
    decreases m
  {
    if j < m {
      TagUnitsGrow(attrs, p, j, m - 1);
    }
  }

  lemma {:induction false} AttrUnitsGrow(c: seq<Entry>, j: nat, k: nat)
    requires j <= k <= |c|
    ensures |AttrUnitsUpTo(c, j)| <= |AttrUnitsUpTo(c, k)|
    ensures forall i :: 0 <= i < |AttrUnitsUpTo(c, j)| ==> AttrUnitsUpTo(c, k)[i] == AttrUnitsUpTo(c, j)[i]
    decreases k
  {
    if j < k {
      AttrUnitsGrow(c, j, k - 1);
    }
  }

  /** Every string unit of the first `k` entries is eligible, and sits at the
      index that counts the string units before it. */
  lemma {:induction false} TextUnitsSlots(c: seq<Entry>, k: nat)
    requires k <= |c|
    ensures forall i :: 0 <= i < |TextUnitsUpTo(c, k)| ==>
      && TextUnitsUpTo(c, k)[i].pos < k && TextUnitsUpTo(c, k)[i].kind == TextNode
      && EligibleText(c[TextUnitsUpTo(c, k)[i].pos]) && |TextUnitsUpTo(c, TextUnitsUpTo(c, k)[i].pos)| == i
    decreases k
  {
    if k > 0 {
      TextUnitsSlots(c, k - 1);
    }
  }

  lemma {:induction false} TagUnitsSlots(attrs: seq<Attribute>, p: nat, m: nat)
    requires m <= |AttrNames|
    ensures forall i :: 0 <= i < |TagUnits(attrs, p, m)| ==>
      && TagUnits(attrs, p, m)[i].pos == p && TagUnits(attrs, p, m)[i].kind.Attr?
      && TagUnits(attrs, p, m)[i].kind.rank < m
      && EligibleAttr(attrs, AttrNames[TagUnits(attrs, p, m)[i].kind.rank])
      && |TagUnits(attrs, p, TagUnits(attrs, p, m)[i].kind.rank)| == i
    decreases m
  {
    if m > 0 {
      TagUnitsSlots(attrs, p, m - 1);
    }
  }

  lemma {:induction false} AttrUnitsSlots(c: seq<Entry>, k: nat)
    requires k <= |c|
    ensures forall i :: 0 <= i < |AttrUnitsUpTo(c, k)| ==>
      && AttrUnitsUpTo(c, k)[i].pos < k && AttrUnitsUpTo(c, k)[i].kind.Attr?
      && IsSlot(c, AttrUnitsUpTo(c, k)[i])
      && |AttrUnitsUpTo(c, AttrUnitsUpTo(c, k)[i].pos)|
         + |TagUnits(c[AttrUnitsUpTo(c, k)[i].pos].attrs, AttrUnitsUpTo(c, k)[i].pos, AttrUnitsUpTo(c, k)[i].kind.rank)| == i
    decreases k
  {
    if k > 0 {
      AttrUnitsSlots(c, k - 1);
      var prev := AttrUnitsUpTo(c, k - 1);
      var more := EntryAttrUnits(c[k - 1], k - 1);
      if c[k - 1].TagEntry? {
        TagUnitsSlots(c[k - 1].attrs, k - 1, |AttrNames|);
      }
      forall i | |prev| <= i < |prev| + |more|
        ensures var u := AttrUnitsUpTo(c, k)[i];
          && u.pos < k && u.kind.Attr? && IsSlot(c, u)
          && |AttrUnitsUpTo(c, u.pos)| + |TagUnits(c[u.pos].attrs, u.pos, u.kind.rank)| == i
      {
        assert AttrUnitsUpTo(c, k)[i] == more[i - |prev|];
      }
    }
  }

  /** The i-th unit is a collected slot, and the counter gives it the number i. */
  lemma UnitsAreSlots(c: seq<Entry>)
    ensures forall i :: 0 <= i < |Units(c)| ==> IsSlot(c, Units(c)[i]) && SlotNumber(c, Units(c)[i]) == i
  {
    TextUnitsSlots(c, |c|);
    AttrUnitsSlots(c, |c|);
    var t := TextUnits(c);
    forall i | 0 <= i < |Units(c)| ensures IsSlot(c, Units(c)[i]) && SlotNumber(c, Units(c)[i]) == i {
      if i < |t| {
        assert Units(c)[i] == t[i];
      } else {
        assert Units(c)[i] == AttrUnits(c)[i - |t|];
      }
    }
  }

  /** Every collected slot is a unit, under the number the counter gives it. */
  lemma SlotsAreUnits(c: seq<Entry>, u: Unit)
    requires IsSlot(c, u)
    ensures SlotNumber(c, u) < |Units(c)| && Units(c)[SlotNumber(c, u)] == u
  {
    if u.kind == TextNode {
      TextSlotIsUnit(c, u);
    } else {
      AttrSlotIsUnit(c, u);
    }
  }

  lemma TextSlotIsUnit(c: seq<Entry>, u: Unit)
    requires IsSlot(c, u) && u.kind == TextNode
    ensures SlotNumber(c, u) < |Units(c)| && Units(c)[SlotNumber(c, u)] == u
  {
    var p := u.pos;
    var i := |TextUnitsUpTo(c, p)|;
    TextUnitsGrow(c, p + 1, |c|);
    assert TextUnitsUpTo(c, p + 1)[i] == u;
    assert TextUnits(c)[i] == u;
  }

  lemma AttrSlotIsUnit(c: seq<Entry>, u: Unit)
    requires IsSlot(c, u) && u.kind.Attr?
    ensures SlotNumber(c, u) < |Units(c)| && Units(c)[SlotNumber(c, u)] == u
  {
    var p, r := u.pos, u.kind.rank;
    var n := |TagUnits(c[p].attrs, p, r)|;
    var k := |AttrUnitsUpTo(c, p)| + n;
    TagSlotIndex(c[p].attrs, p, r);
    AttrUnitsEntryIndex(c, p, n);
    AttrUnitsGrow(c, p + 1, |c|);
    UnitsAttrIndex(c, k);
  }

  /** An eligible whitelisted attribute is among the tag's units, after the
      eligible names before it. */
  lemma TagSlotIndex(attrs: seq<Attribute>, p: nat, r: nat)
    requires r < |AttrNames| && EligibleAttr(attrs, AttrNames[r])
    ensures |TagUnits(attrs, p, r)| < |TagUnits(attrs, p, |AttrNames|)|
    ensures TagUnits(attrs, p, |AttrNames|)[|TagUnits(attrs, p, r)|] == Unit(p, Attr(r))
  {
    TagUnitsGrow(attrs, p, r + 1, |AttrNames|);
    assert TagUnits(attrs, p, r + 1)[|TagUnits(attrs, p, r)|] == Unit(p, Attr(r));
  }

  lemma AttrUnitsEntryIndex(c: seq<Entry>, p: nat, n: nat)
    requires p < |c| && c[p].TagEntry? && n < |TagUnits(c[p].attrs, p, |AttrNames|)|
    ensures |AttrUnitsUpTo(c, p)| + n < |AttrUnitsUpTo(c, p + 1)|
    ensures AttrUnitsUpTo(c, p + 1)[|AttrUnitsUpTo(c, p)| + n] == TagUnits(c[p].attrs, p, |AttrNames|)[n]
  {
  }

  lemma UnitsAttrIndex(c: seq<Entry>, k: nat)
    requires k < |AttrUnits(c)|
    ensures |TextUnits(c)| + k < |Units(c)| && Units(c)[|TextUnits(c)| + k] == AttrUnits(c)[k]
  {
  }

  /** The collection order: every string before every attribute, strings in
      chain order, attributes by tag in chain order and within a tag in the
      order of `AttrNames`. */
  predicate Precedes(u: Unit, v: Unit) {
    match (u.kind, v.kind)
    case (TextNode, TextNode) => u.pos < v.pos
    case (TextNode, Attr(_)) => true
    case (Attr(_), TextNode) => false
    case (Attr(r), Attr(q)) => u.pos < v.pos || (u.pos == v.pos && r < q)
  }

  lemma UnitsOrdered(c: seq<Entry>, i: nat, j: nat)
    requires i < j < |Units(c)|
    ensures Precedes(Units(c)[i], Units(c)[j])
  {
    UnitsAreSlots(c);
    var u, v := Units(c)[i], Units(c)[j];
    TextUnitsGrow(c, v.pos, |c|);
    match (u.kind, v.kind)
    case (TextNode, TextNode) =>
      if v.pos <= u.pos {
        TextUnitsGrow(c, v.pos, u.pos);
      }
    case (TextNode, Attr(_)) =>
    case (Attr(_), TextNode) =>
    case (Attr(ru), Attr(rv)) =>
      var av := c[v.pos].attrs;
      if v.pos < u.pos {
        AttrUnitsGrow(c, v.pos + 1, u.pos);
        TagUnitsGrow(av, v.pos, rv + 1, |AttrNames|);
      } else if v.pos == u.pos && rv <= ru {
        TagUnitsGrow(av, v.pos, rv, ru);
      }
  }

  // ---------------------------------------------------------------------------
  // What filling does to the chain

  /** Filling name `r` puts into it the value its place among the tag's
      eligible names selects. */
  lemma {:induction false} FillAttrsGet(attrs: seq<Attribute>, vals: nat -> string, base: nat, p: nat, m: nat, r: nat)
    requires r < m <= |AttrNames| && EligibleAttr(attrs, AttrNames[r])
    ensures GetAttr(FillAttrs(attrs, vals, base, p, m), AttrNames[r]) == Some(Str(vals(base + |TagUnits(attrs, p, r)|)))
    decreases m, 1
  {
    if r == m - 1 {
      FillAttrsGetLast(attrs, vals, base, p, m, r);
    } else {
      FillAttrsGetEarlier(attrs, vals, base, p, m, r);
    }
  }

  lemma RankBridge(attrs: seq<Attribute>, p: nat, m: nat, r: nat)
    requires r == m - 1 && m <= |AttrNames|
    ensures AttrNames[m - 1] == AttrNames[r] && TagUnits(attrs, p, m - 1) == TagUnits(attrs, p, r)
  {
  }

  lemma FillAttrsGetLast(attrs: seq<Attribute>, vals: nat -> string, base: nat, p: nat, m: nat, r: nat)
    requires r == m - 1 && m <= |AttrNames| && EligibleAttr(attrs, AttrNames[r])
    ensures GetAttr(FillAttrs(attrs, vals, base, p, m), AttrNames[r]) == Some(Str(vals(base + |TagUnits(attrs, p, r)|)))
  {
    RankBridge(attrs, p, m, r);
    FillAttrsGetTop(attrs, vals, base, p, m);
  }

  lemma FillAttrsGetTop(attrs: seq<Attribute>, vals: nat -> string, base: nat, p: nat, m: nat)
    requires 0 < m <= |AttrNames| && EligibleAttr(attrs, AttrNames[m - 1])
    ensures GetAttr(FillAttrs(attrs, vals, base, p, m), AttrNames[m - 1])
      == Some(Str(vals(base + |TagUnits(attrs, p, m - 1)|)))
  {
    FillAttrsKeep(attrs, vals, base, p, m);
    TagStepValue(attrs, vals, base, p, m - 1);
    GetSetSame(FillAttrs(attrs, vals, base, p, m - 1), AttrNames[m - 1], Str(vals(base + |TagUnits(attrs, p, m - 1)|)));
  }

  lemma {:induction false} FillAttrsGetEarlier(attrs: seq<Attribute>, vals: nat -> string, base: nat, p: nat, m: nat, r: nat)
    requires r < m - 1 && m <= |AttrNames| && EligibleAttr(attrs, AttrNames[r])
    ensures GetAttr(FillAttrs(attrs, vals, base, p, m), AttrNames[r]) == Some(Str(vals(base + |TagUnits(attrs, p, r)|)))
    decreases m, 0
  {
    FillAttrsGet(attrs, vals, base, p, m - 1, r);
    if EligibleAttr(attrs, AttrNames[m - 1]) {
      FillAttrsKeep(attrs, vals, base, p, m);
      AttrNamesDistinct();
      GetSetOther(FillAttrs(attrs, vals, base, p, m - 1), AttrNames[m - 1], AttrNames[r], Str(vals(base + |TagUnits(attrs, p, m - 1)|)));
    } else {
      FillAttrsSkip(attrs, vals, base, p, m);
    }
  }

  /** Filling keeps every attribute's name, in place. */
  lemma {:induction false} FillAttrsNames(attrs: seq<Attribute>, vals: nat -> string, base: nat, p: nat, m: nat)
    requires m <= |AttrNames|
    ensures forall q :: 0 <= q < |attrs| ==> FillAttrs(attrs, vals, base, p, m)[q].name == attrs[q].name
    decreases m
  {
    if m > 0 {
      FillAttrsNames(attrs, vals, base, p, m - 1);
    }
  }

  /** The i-th unit's slot receives `vals(i)`. */
  lemma FillTextAt(c: seq<Entry>, vals: nat -> string, p: nat)
    requires p < |c| && !c[p].TagEntry?
    ensures Fill(c, vals)[p] == FillText(c, vals, p)
  {
    FillAt(c, vals, p);
    FillEntryOther(c, vals, p);
  }

  lemma FillTagAt(c: seq<Entry>, vals: nat -> string, p: nat)
    requires p < |c| && c[p].TagEntry?
    ensures Fill(c, vals)[p]
      == TagEntry(c[p].name, FillAttrs(c[p].attrs, vals, |TextUnits(c)| + |AttrUnitsUpTo(c, p)|, p, |AttrNames|))
  {
    FillAt(c, vals, p);
    FillEntryTag(c, vals, p);
  }

  /** A collected string receives the value its number selects. */
  lemma TextSlotFilled(c: seq<Entry>, vals: nat -> string, u: Unit)
    requires IsSlot(c, u) && u.kind == TextNode
    ensures SlotValue(Fill(c, vals)[u.pos], u.kind) == vals(SlotNumber(c, u))
  {
    FillTextAt(c, vals, u.pos);
  }

  /** A collected attribute receives the value its number selects. */
  lemma AttrSlotFilled(c: seq<Entry>, vals: nat -> string, u: Unit)
    requires IsSlot(c, u) && u.kind.Attr?
    ensures SlotValue(Fill(c, vals)[u.pos], u.kind) == vals(SlotNumber(c, u))
  {
    AttrSlotFilledAt(c, vals, u.pos, u.kind.rank);
  }

  lemma AttrSlotFilledAt(c: seq<Entry>, vals: nat -> string, p: nat, r: nat)
    requires p < |c| && c[p].TagEntry? && r < |AttrNames| && EligibleAttr(c[p].attrs, AttrNames[r])
    ensures Fill(c, vals)[p].TagEntry?
    ensures AttrValueOf(Fill(c, vals)[p].attrs, r)
      == vals(|TextUnits(c)| + |AttrUnitsUpTo(c, p)| + |TagUnits(c[p].attrs, p, r)|)
  {
    var base := |TextUnits(c)| + |AttrUnitsUpTo(c, p)|;
    var filled := FillAttrs(c[p].attrs, vals, base, p, |AttrNames|);
    FillTagAt(c, vals, p);
    assert Fill(c, vals)[p].attrs == filled;
    TagSlotFilled(c[p].attrs, vals, base, p, r);
  }

  lemma TagSlotFilled(attrs: seq<Attribute>, vals: nat -> string, base: nat, p: nat, r: nat)
    requires r < |AttrNames| && EligibleAttr(attrs, AttrNames[r])
    ensures AttrValueOf(FillAttrs(attrs, vals, base, p, |AttrNames|), r) == vals(base + |TagUnits(attrs, p, r)|)
  {
    FillAttrsGet(attrs, vals, base, p, |AttrNames|, r);
    assert AttrName(r) == AttrNames[r];
  }

  /** The i-th unit's slot receives `vals(i)`. */
  lemma FillSlot(c: seq<Entry>, vals: nat -> string, i: nat)
    requires i < |Units(c)|
    ensures Units(c)[i].pos < |c|
    ensures SlotValue(Fill(c, vals)[Units(c)[i].pos], Units(c)[i].kind) == vals(i)
  {
    UnitsAreSlots(c);
    var u := Units(c)[i];
    if u.kind == TextNode {
      TextSlotFilled(c, vals, u);
    } else {
      AttrSlotFilled(c, vals, u);
    }
  }

  /** Comments, and strings that are not eligible (inside `<script>` or
      `<style>`, empty or blank), keep their entry; every other string keeps
      its parent. */
  lemma FillKeepsText(c: seq<Entry>, vals: nat -> string, p: nat)
    requires p < |c| && !c[p].TagEntry?
    ensures c[p].CommentEntry? ==> Fill(c, vals)[p] == c[p]
    ensures c[p].TextEntry? ==> Fill(c, vals)[p].TextEntry? && Fill(c, vals)[p].parent == c[p].parent
    ensures c[p].TextEntry? && !EligibleText(c[p]) ==> Fill(c, vals)[p] == c[p]
  {
    FillTextAt(c, vals, p);
  }

  /** A tag keeps its name and its attribute names in place, and the value
      of every attribute that is not whitelisted or not eligible. */
  lemma FillKeepsTag(c: seq<Entry>, vals: nat -> string, p: nat)
    requires p < |c| && c[p].TagEntry?
    ensures Fill(c, vals)[p].TagEntry? && Fill(c, vals)[p].name == c[p].name
    ensures |Fill(c, vals)[p].attrs| == |c[p].attrs|
    ensures forall q :: 0 <= q < |c[p].attrs| ==> Fill(c, vals)[p].attrs[q].name == c[p].attrs[q].name
    ensures forall a :: a !in AttrNames || !EligibleAttr(c[p].attrs, a) ==>
      GetAttr(Fill(c, vals)[p].attrs, a) == GetAttr(c[p].attrs, a)
  {
    var attrs := c[p].attrs;
    var base := |TextUnits(c)| + |AttrUnitsUpTo(c, p)|;
    var f := FillAttrs(attrs, vals, base, p, |AttrNames|);
    FillTagAt(c, vals, p);
    assert Fill(c, vals)[p] == TagEntry(c[p].name, f);
    FillAttrsNames(attrs, vals, base, p, |AttrNames|);
    forall a | a !in AttrNames || !EligibleAttr(attrs, a)
      ensures GetAttr(f, a) == GetAttr(attrs, a)
    {
      FillAttrsGetOther(attrs, vals, base, p, |AttrNames|, a);
    }
  }

  // ---------------------------------------------------------------------------
  // Filling every unit with its own original string

  /** `vals` gives every unit its original string. */
  predicate GivesOriginals(c: seq<Entry>, vals: nat -> string) {
    forall i :: 0 <= i < |Units(c)| ==> vals(i) == Original(c, Units(c)[i])
  }

  /** A slot receives its own original string. */
  lemma SlotGetsOriginal(c: seq<Entry>, vals: nat -> string, u: Unit)
    requires IsSlot(c, u) && GivesOriginals(c, vals)
    ensures vals(SlotNumber(c, u)) == SlotValue(c[u.pos], u.kind)
  {
    SlotsAreUnits(c, u);
  }

  lemma {:induction false} FillAttrsIdentity(c: seq<Entry>, vals: nat -> string, p: nat, m: nat)
    requires p < |c| && c[p].TagEntry? && m <= |AttrNames| && GivesOriginals(c, vals)
    ensures FillAttrs(c[p].attrs, vals, |TextUnits(c)| + |AttrUnitsUpTo(c, p)|, p, m) == c[p].attrs
    decreases m
  {
    if m > 0 {
      var attrs, base := c[p].attrs, |TextUnits(c)| + |AttrUnitsUpTo(c, p)|;
      FillAttrsIdentity(c, vals, p, m - 1);
      var a := AttrNames[m - 1];
      if EligibleAttr(attrs, a) {
        FillAttrsKeep(attrs, vals, base, p, m);
        var u := Unit(p, Attr(m - 1));
        SlotGetsOriginal(c, vals, u);
        assert AttrName(m - 1) == a;
        SetAttrSame(attrs, a, Str(vals(base + |TagUnits(attrs, p, m - 1)|)));
      } else {
        FillAttrsSkip(attrs, vals, base, p, m);
      }
    }
  }

  lemma TextIdentity(c: seq<Entry>, vals: nat -> string, p: nat)
    requires p < |c| && !c[p].TagEntry? && GivesOriginals(c, vals)
    ensures Fill(c, vals)[p] == c[p]
  {
    FillTextAt(c, vals, p);
    if EligibleText(c[p]) {
      SlotGetsOriginal(c, vals, Unit(p, TextNode));
    }
  }

  lemma TagIdentity(c: seq<Entry>, vals: nat -> string, p: nat)
    requires p < |c| && c[p].TagEntry? && GivesOriginals(c, vals)
    ensures Fill(c, vals)[p] == c[p]
  {
    FillTagAt(c, vals, p);
    FillAttrsIdentity(c, vals, p, |AttrNames|);
  }

  /** Giving every unit its own original string changes nothing. */
  lemma FillIdentity(c: seq<Entry>, vals: nat -> string)
    requires GivesOriginals(c, vals)
    ensures Fill(c, vals) == c
  {
    forall p | 0 <= p < |c| ensures Fill(c, vals)[p] == c[p] {
      if c[p].TagEntry? {
        TagIdentity(c, vals, p);
      } else {
        TextIdentity(c, vals, p);
      }
    }
  }
}
