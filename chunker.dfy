/** `split_html_intelligently`: the serialized children of `<body>` packed
    greedily into chunks of about `max_chunk_size` characters, an oversized
    child first being cut after each closing `</p>`, `</div>`, `</li>` or `</tr>`. */
module Chunker {
  import opened Wrappers
  import opened Strings
  import opened Html
  import opened Batching

  /** The default `max_chunk_size`. */
  const DefaultMaxChunk: int := 3000

  /** `str(element)` for one child of `<body>`. A BeautifulSoup `Comment` is a
      string, so `str` gives its bare text; the `<!--` and `-->` delimiters are
      written only when an enclosing tag is serialized. A string or a tag is
      written as the serializer writes it. */
  function ChildString(n: Node): (r: string)
    ensures n.Comment? ==> r == n.text
    ensures !n.Comment? ==> r == SerializeNode(n)
  {
    if n.Comment? then n.text else SerializeNode(n)
  }

  /** `str(child)` for every child of a tag, in order. */
  function ChildStrings(ch: seq<Node>): (r: seq<string>)
    ensures |r| == |ch|
    ensures forall k :: 0 <= k < |ch| ==> r[k] == ChildString(ch[k])
  {
    seq(|ch|, k requires 0 <= k < |ch| => ChildString(ch[k]))
  }

  /** The children with every comment among them turned into a string of the
      same text: what `str` makes of a direct comment child. */
  function Uncommented(ch: seq<Node>): (r: seq<Node>)
    ensures |r| == |ch|
    ensures forall k :: 0 <= k < |ch| ==> r[k] == if ch[k].Comment? then Text(ch[k].text) else ch[k]
  {
    seq(|ch|, k requires 0 <= k < |ch| => if ch[k].Comment? then Text(ch[k].text) else ch[k])
  }

  /** Together the child strings are the inner markup of the tag whose direct
      comment children are written as their bare text; with no direct comment
      child, that is the tag's own inner markup. */
  lemma ChildStringsConcat(ch: seq<Node>)
    ensures Concat(ChildStrings(ch)) == Serialize(Uncommented(ch))
    ensures (forall k :: 0 <= k < |ch| ==> !ch[k].Comment?) ==> Concat(ChildStrings(ch)) == Serialize(ch)
  {
    ChildStringsJoin(ch);
    if forall k :: 0 <= k < |ch| ==> !ch[k].Comment? {
      var u := Uncommented(ch);
      forall k | 0 <= k < |ch|
        ensures u[k] == ch[k]
      {
      }
      assert u == ch;
    }
  }

  lemma {:induction false} ChildStringsJoin(ch: seq<Node>)
    ensures Concat(ChildStrings(ch)) == Serialize(Uncommented(ch))
    decreases |ch|
  {
    if ch != [] {
      var u, rest := Uncommented(ch), ChildStrings(ch[1..]);
      ChildStringsJoin(ch[1..]);
      assert u[1..] == Uncommented(ch[1..]);
      assert ChildStrings(ch) == [ChildString(ch[0])] + rest;
      assert SerializeNode(u[0]) == ChildString(ch[0]);
      ConcatAppend([ChildString(ch[0])], rest);
      ConcatSingleton(ChildString(ch[0]));
    }
  }

  // ---------------------------------------------------------------------------
  // re.split(r'(</p>|</div>|</li>|</tr>)', element_str)

  /** `w` occurs in `s` at position `i`. */
  predicate At(s: string, i: nat, w: string) {
    i + |w| <= |s| && forall q :: 0 <= q < |w| ==> s[i + q] == w[q]
  }

  /** The closing tags the split cuts after. */
  predicate IsCloser(t: string) {
    t == "</p>" || t == "</div>" || t == "</li>" || t == "</tr>"
  }

  /** The length of the closer the pattern matches at position `i`, or 0 when
      it matches none there. */
  function CloserAt(s: string, i: nat): (n: nat)
    ensures n > 0 ==> i + n <= |s| && IsCloser(s[i..i + n])
  {
    if At(s, i, "</p>") then 4
    else if At(s, i, "</div>") then 6
    else if At(s, i, "</li>") then 5
    else if At(s, i, "</tr>") then 5
    else 0
  }

  /** No closer occurs anywhere in `t`. */
  predicate NoCloser(t: string) {
    forall j :: 0 <= j < |t| ==> CloserAt(t, j) == 0
  }

  /** The length of the closer `t` ends with, or 0. */
  function CloserEnd(t: string): (n: nat)
    ensures n <= |t|
  {
    if |t| >= 4 && t[|t| - 4..] == "</p>" then 4
    else if |t| >= 6 && t[|t| - 6..] == "</div>" then 6
    else if |t| >= 5 && (t[|t| - 5..] == "</li>" || t[|t| - 5..] == "</tr>") then 5
    else 0
  }

  /** A piece cut after a closer: text free of closers, then the closer. */
  predicate ClosedPiece(t: string) {
    CloserEnd(t) > 0 && NoCloser(t[..|t| - CloserEnd(t)])
  }

  /** The scan of `re.split` from position `i`, the current text having begun
      at `start`: texts and the captured closers alternate. */
  function SplitFrom(s: string, start: nat, i: nat): (r: seq<string>)
    requires start <= i <= |s|
    ensures |r| > 0
    decreases |s| - i
  {
    if i == |s| then [s[start..]]
    else
      var n := CloserAt(s, i);
      if n > 0 then [s[start..i], s[i..i + n]] + SplitFrom(s, i + n, i + n)
      else SplitFrom(s, start, i + 1)
  }

  function ReSplit(s: string): seq<string> {
    SplitFrom(s, 0, 0)
  }

  /** The pieces `paragraphs[i] + paragraphs[i + 1]` for even `i`, the last
      one alone when the list has odd length. */
  function Pairs(ps: seq<string>): seq<string>
    decreases |ps|
  {
    if |ps| <= 1 then ps else [ps[0] + ps[1]] + Pairs(ps[2..])
  }

  /** There is one pair per two entries, rounded up. */
  lemma {:induction false} PairsLength(ps: seq<string>)
    ensures |ps| <= 2 * |Pairs(ps)| < |ps| + 2
    decreases |ps|
  {
    if |ps| > 1 {
      PairsLength(ps[2..]);
    }
  }

  /** Pair `n` is entry `i = 2n` followed by entry `i + 1`, if there is one. */
  lemma {:induction false} PairsAt(ps: seq<string>, n: nat, i: nat)
    requires i == 2 * n && i < |ps|
    ensures n < |Pairs(ps)|
    ensures Pairs(ps)[n] == ps[i] + (if i + 1 < |ps| then ps[i + 1] else "")
    decreases n
  {
    if n > 0 {
      PairsAt(ps[2..], n - 1, i - 2);
      assert ps[2..][i - 2] == ps[i];
    } else if |ps| == 1 {
      assert ps[0] + "" == ps[0];
    }
  }

  /** A closer inside a part of `s` is a closer of `s`. */
  lemma CloserInside(s: string, a: nat, b: nat, j: nat)
    requires a <= b <= |s| && j < b - a
    ensures CloserAt(s[a..b], j) > 0 ==> CloserAt(s, a + j) > 0
  {
    var t := s[a..b];
    AtInside(s, a, b, j, "</p>");
    AtInside(s, a, b, j, "</div>");
    AtInside(s, a, b, j, "</li>");
    AtInside(s, a, b, j, "</tr>");
  }

  lemma AtInside(s: string, a: nat, b: nat, j: nat, w: string)
    requires a <= b <= |s|
    ensures At(s[a..b], j, w) ==> At(s, a + j, w)
  {
  }

  /** A stretch of `s` in which no closer starts contains no closer. */
  lemma StretchNoCloser(s: string, a: nat, b: nat)
    requires a <= b <= |s|
    requires forall j :: a <= j < b ==> CloserAt(s, j) == 0
    ensures NoCloser(s[a..b])
  {
    forall j | 0 <= j < b - a ensures CloserAt(s[a..b], j) == 0 {
      CloserInside(s, a, b, j);
    }
  }

  /** Text followed by a closer ends with exactly that closer. */
  lemma CloserEndOf(a: string, b: string)
    requires IsCloser(b)
    ensures CloserEnd(a + b) == |b| && (a + b)[..|a + b| - |b|] == a
  {
    var t := a + b;
    assert t[|t| - |b|..] == b;
    if |b| == 6 {
      assert t[|t| - 4..] == b[2..];
    } else if |b| == 5 {
      assert t[|t| - 4..] == b[1..];
    }
    assert t[..|t| - |b|] == a;
  }

  /** Pieces as the split of an oversized child yields them: each but the
      last is closer-free text followed by its closer, and the last holds no
      closer. */
  predicate CutAfterClosers(ps: seq<string>) {
    && |ps| > 0
    && (forall k :: 0 <= k < |ps| - 1 ==> ClosedPiece(ps[k]))
    && NoCloser(ps[|ps| - 1])
  }

  lemma CutAfterClosersCons(x: string, ps: seq<string>)
    requires ClosedPiece(x) && CutAfterClosers(ps)
    ensures CutAfterClosers([x] + ps)
  {
    var l := [x] + ps;
    forall k | 0 <= k < |l| - 1 ensures ClosedPiece(l[k]) {
      if k > 0 {
        assert l[k] == ps[k - 1];
      }
    }
    assert l[|l| - 1] == ps[|ps| - 1];
  }

  /** The split scanned from `i`, the current text having begun at `start`,
      pairs up into pieces that put the rest of the string back together. */
  lemma {:induction false} SplitFromConcat(s: string, start: nat, i: nat)
    requires start <= i <= |s|
    ensures Concat(Pairs(SplitFrom(s, start, i))) == s[start..]
    decreases |s| - i
  {
    if i == |s| {
      assert Pairs(SplitFrom(s, start, i)) == [s[start..]];
      ConcatSingleton(s[start..]);
    } else {
      var n := CloserAt(s, i);
      if n > 0 {
        var rest := SplitFrom(s, i + n, i + n);
        assert SplitFrom(s, start, i) == [s[start..i], s[i..i + n]] + rest;
        SplitFromConcat(s, i + n, i + n);
        ConcatCut(s[start..i], s[i..i + n], rest);
        ThreeParts(s, start, i, i + n);
      } else {
        assert SplitFrom(s, start, i) == SplitFrom(s, start, i + 1);
        SplitFromConcat(s, start, i + 1);
      }
    }
  }

  lemma ThreeParts(s: string, a: nat, b: nat, c: nat)
    requires a <= b <= c <= |s|
    ensures s[a..b] + s[b..c] + s[c..] == s[a..]
  {
  }

  lemma ConcatCut(a: string, c: string, rest: seq<string>)
    ensures Concat(Pairs([a, c] + rest)) == a + c + Concat(Pairs(rest))
  {
    PairsCut(a, c, rest);
    ConcatAppend([a + c], Pairs(rest));
    ConcatSingleton(a + c);
  }

  /** ... and are cut right after each closer and nowhere else. */
  lemma {:induction false} SplitFromCuts(s: string, start: nat, i: nat)
    requires start <= i <= |s|
    requires forall j :: start <= j < i ==> CloserAt(s, j) == 0
    ensures CutAfterClosers(Pairs(SplitFrom(s, start, i)))
    decreases |s| - i
  {
    if i == |s| {
      assert Pairs(SplitFrom(s, start, i)) == [s[start..]];
      StretchNoCloser(s, start, i);
      assert s[start..i] == s[start..];
    } else {
      var n := CloserAt(s, i);
      if n > 0 {
        var rest := SplitFrom(s, i + n, i + n);
        assert SplitFrom(s, start, i) == [s[start..i], s[i..i + n]] + rest;
        SplitFromCuts(s, i + n, i + n);
        StretchNoCloser(s, start, i);
        CloserEndOf(s[start..i], s[i..i + n]);
        PairsCut(s[start..i], s[i..i + n], rest);
        CutAfterClosersCons(s[start..i] + s[i..i + n], Pairs(rest));
      } else {
        assert SplitFrom(s, start, i) == SplitFrom(s, start, i + 1);
        SplitFromCuts(s, start, i + 1);
      }
    }
  }

  lemma PairsCut(a: string, c: string, rest: seq<string>)
    ensures Pairs([a, c] + rest) == [a + c] + Pairs(rest)
  {
    assert ([a, c] + rest)[2..] == rest;
  }

  // ---------------------------------------------------------------------------
  // The pieces the packing loop sees

  /** The pieces of one child: an oversized child is split, any other child
      is one piece. */
  function PiecesOf(e: string, max: int): seq<string> {
    if |e| > max then Pairs(ReSplit(e)) else [e]
  }

  /** The pieces of all children, in order. */
  function Pieces(children: seq<string>, max: int): seq<string>
    decreases |children|
  {
    if children == [] then []
    else Pieces(children[..|children| - 1], max) + PiecesOf(children[|children| - 1], max)
  }

  /** Splitting an oversized child cuts it right after each closer and nowhere
      else, and its pieces put it back together; any other child stays whole. */
  lemma ChildPieces(e: string, max: int)
    ensures Concat(PiecesOf(e, max)) == e
    ensures |e| <= max ==> PiecesOf(e, max) == [e]
    ensures |e| > max ==> CutAfterClosers(PiecesOf(e, max))
  {
    if |e| > max {
      SplitFromConcat(e, 0, 0);
      SplitFromCuts(e, 0, 0);
      assert e[0..] == e;
    } else {
      ConcatSingleton(e);
    }
  }

  lemma {:induction false} PiecesConcat(children: seq<string>, max: int)
    ensures Concat(Pieces(children, max)) == Concat(children)
    decreases |children|
  {
    if children != [] {
      var init, last := children[..|children| - 1], children[|children| - 1];
      PiecesConcat(init, max);
      ConcatAppend(Pieces(init, max), PiecesOf(last, max));
      ChildPieces(last, max);
    }
  }

  // ---------------------------------------------------------------------------
  // Greedy packing

  /** The packing loop's state, as the pieces that make up each finished
      chunk and the current chunk. */
  datatype Packing = Packing(groups: seq<seq<string>>, current: seq<string>)

  /** The chunk strings of a list of groups. */
  function Texts(gs: seq<seq<string>>): (r: seq<string>)
    ensures |r| == |gs|
    ensures forall k :: 0 <= k < |gs| ==> r[k] == Concat(gs[k])
  {
    seq(|gs|, k requires 0 <= k < |gs| => Concat(gs[k]))
  }

  /** One piece `p`: if it does not fit, the current chunk is finished (when
      it holds anything) and `p` starts the next; otherwise it is appended. */
  function Step(st: Packing, p: string, max: int): Packing {
    if |Concat(st.current)| + |p| > max then
      Packing(if Concat(st.current) != "" then st.groups + [st.current] else st.groups, [p])
    else
      Packing(st.groups, st.current + [p])
  }

  function Pack(ps: seq<string>, max: int): Packing
    decreases |ps|
  {
    if ps == [] then Packing([], []) else Step(Pack(ps[..|ps| - 1], max), ps[|ps| - 1], max)
  }

  /** After the loop: `if current_chunk: chunks.append(current_chunk)`. */
  function Close(st: Packing): seq<seq<string>> {
    if Concat(st.current) != "" then st.groups + [st.current] else st.groups
  }

  /** The groups behind the chunks of a body with the given children. */
  function BodyGroups(children: seq<string>, max: int): seq<seq<string>> {
    Close(Pack(Pieces(children, max), max))
  }

  /** The pair `split_html_intelligently` returns, for the head's markup (if
      the document has a head) and the body's child strings (if it has a body). */
  function SplitHtml(head: Option<string>, body: Option<seq<string>>, max: int): (string, seq<string>) {
    (if head.Some? then head.value else "",
     if body.Some? then Texts(BodyGroups(body.value, max)) else [])
  }

  /** `xs` without its empty strings. */
  function NonEmpty(xs: seq<string>): seq<string>
    decreases |xs|
  {
    if xs == [] then []
    else NonEmpty(xs[..|xs| - 1]) + (if xs[|xs| - 1] == "" then [] else [xs[|xs| - 1]])
  }

  lemma {:induction false} NonEmptyAppend(a: seq<string>, b: seq<string>)
    ensures NonEmpty(a + b) == NonEmpty(a) + NonEmpty(b)
    decreases |b|
  {
    if b != [] {
      var b' := b[..|b| - 1];
      assert (a + b)[..|a + b| - 1] == a + b';
      NonEmptyAppend(a, b');
    } else {
      assert a + b == a;
    }
  }

  lemma {:induction false} NonEmptyOfBlank(xs: seq<string>)
    requires Concat(xs) == ""
    ensures NonEmpty(xs) == []
    decreases |xs|
  {
    if xs != [] {
      NonEmptyOfBlank(xs[..|xs| - 1]);
    }
  }

  lemma {:induction false} ConcatNonEmpty(xs: seq<string>)
    ensures Concat(NonEmpty(xs)) == Concat(xs)
    decreases |xs|
  {
    if xs != [] {
      var init, last := xs[..|xs| - 1], xs[|xs| - 1];
      ConcatNonEmpty(init);
      assert NonEmpty(xs) == NonEmpty(init) + (if last == "" then [] else [last]);
      if last != "" {
        ConcatSnoc(NonEmpty(init), last);
      } else {
        assert NonEmpty(xs) == NonEmpty(init);
        assert Concat(xs) == Concat(init) + "";
      }
    }
  }

  lemma {:induction false} ConcatFlatten(gs: seq<seq<string>>)
    ensures Concat(Flatten(gs)) == Concat(Texts(gs))
    decreases |gs|
  {
    if gs != [] {
      var init := gs[..|gs| - 1];
      ConcatFlatten(init);
      ConcatAppend(Flatten(init), gs[|gs| - 1]);
      assert Texts(gs) == Texts(init) + [Concat(gs[|gs| - 1])];
      ConcatSnoc(Texts(init), Concat(gs[|gs| - 1]));
    }
  }

  /** Group `k` was finished because the first piece of group `k + 1` would
      have pushed it past `max`. */
  predicate Finished(gs: seq<seq<string>>, k: nat, max: int)
    requires k + 1 < |gs|
  {
    |gs[k + 1]| > 0 && |Concat(gs[k])| + |gs[k + 1][0]| > max
  }

  /** What the packing loop keeps true, after the pieces `ps`, in three parts.
      First: the groups and the current chunk hold the non-empty pieces, in order. */
  predicate PackedPieces(st: Packing, ps: seq<string>) {
    NonEmpty(Flatten(st.groups) + st.current) == NonEmpty(ps)
  }

  /** Second: no finished chunk is empty, and a chunk of several pieces fits in `max`. */
  ghost predicate PackedSizes(st: Packing, max: int) {
    && (forall k :: 0 <= k < |st.groups| ==> Concat(st.groups[k]) != "")
    && (forall k :: 0 <= k < |st.groups| ==> |st.groups[k]| > 1 ==> |Concat(st.groups[k])| <= max)
    && (|st.current| > 1 ==> |Concat(st.current)| <= max)
  }

  /** Third: a chunk was finished only because the next piece did not fit. */
  ghost predicate PackedGreedy(st: Packing, max: int) {
    && (forall k :: 0 <= k < |st.groups| - 1 ==> Finished(st.groups, k, max))
    && (st.groups != [] ==>
          st.current != [] && |Concat(st.groups[|st.groups| - 1])| + |st.current[0]| > max)
  }

  lemma StepPieces(st: Packing, ps: seq<string>, p: string, max: int)
    requires PackedPieces(st, ps)
    ensures PackedPieces(Step(st, p, max), ps + [p])
  {
    var fl := Flatten(st.groups);
    NonEmptyAppend(ps, [p]);
    if |Concat(st.current)| + |p| <= max {
      assert fl + (st.current + [p]) == (fl + st.current) + [p];
      NonEmptyAppend(fl + st.current, [p]);
    } else if Concat(st.current) != "" {
      FlattenSnoc(st.groups, st.current);
      NonEmptyAppend(fl + st.current, [p]);
    } else {
      NonEmptyOfBlank(st.current);
      NonEmptyAppend(fl, st.current);
      NonEmptyAppend(fl, [p]);
    }
  }

  lemma StepSizes(st: Packing, p: string, max: int)
    requires PackedSizes(st, max)
    ensures PackedSizes(Step(st, p, max), max)
  {
    if |Concat(st.current)| + |p| <= max {
      ConcatSnoc(st.current, p);
    } else if Concat(st.current) != "" {
      var gs := st.groups + [st.current];
      assert gs[|gs| - 1] == st.current;
    }
  }

  lemma StepGreedy(st: Packing, p: string, max: int)
    requires PackedGreedy(st, max)
    ensures PackedGreedy(Step(st, p, max), max)
  {
    if |Concat(st.current)| + |p| <= max {
      ConcatSnoc(st.current, p);
    } else if Concat(st.current) != "" {
      FinishGreedy(st.groups, st.current, max);
    } else if st.groups != [] {
      BlankAll(st.current);
    }
  }

  /** Finishing a current chunk that follows the last group greedily keeps
      every pair of neighbours greedy. */
  lemma FinishGreedy(groups: seq<seq<string>>, current: seq<string>, max: int)
    requires forall k :: 0 <= k < |groups| - 1 ==> Finished(groups, k, max)
    requires groups != [] ==> current != [] && |Concat(groups[|groups| - 1])| + |current[0]| > max
    ensures forall k :: 0 <= k < |groups + [current]| - 1 ==> Finished(groups + [current], k, max)
  {
    var gs := groups + [current];
    forall k | 0 <= k < |gs| - 1 ensures Finished(gs, k, max) {
      if k < |gs| - 2 {
        assert Finished(groups, k, max);
        assert gs[k] == groups[k] && gs[k + 1] == groups[k + 1];
      } else {
        assert gs[k] == groups[|groups| - 1] && gs[k + 1] == current;
      }
    }
  }

  /** A list of strings that joins to nothing holds only empty strings. */
  lemma {:induction false} BlankAll(xs: seq<string>)
    requires Concat(xs) == ""
    ensures forall k :: 0 <= k < |xs| ==> xs[k] == ""
    decreases |xs|
  {
    if xs != [] {
      BlankAll(xs[..|xs| - 1]);
    }
  }

  ghost predicate Packed(st: Packing, ps: seq<string>, max: int) {
    PackedPieces(st, ps) && PackedSizes(st, max) && PackedGreedy(st, max)
  }

  lemma PackSnoc(ps: seq<string>, p: string, max: int)
    ensures Pack(ps + [p], max) == Step(Pack(ps, max), p, max)
  {
    assert (ps + [p])[..|ps|] == ps;
  }

  lemma {:induction false} PackPacked(ps: seq<string>, max: int)
    ensures Packed(Pack(ps, max), ps, max)
    decreases |ps|
  {
    if ps != [] {
      var init, p := ps[..|ps| - 1], ps[|ps| - 1];
      PackPacked(init, max);
      StepPacked(Pack(init, max), init, p, max);
      PackSnoc(init, p, max);
      assert init + [p] == ps;
    }
  }

  /** One round of the loop keeps the packing's promises. */
  lemma StepPacked(st: Packing, ps: seq<string>, p: string, max: int)
    requires Packed(st, ps, max)
    ensures Packed(Step(st, p, max), ps + [p], max)
  {
    StepPieces(st, ps, p, max);
    StepSizes(st, p, max);
    StepGreedy(st, p, max);
  }

  /** The finished list of groups keeps the loop's promises. */
  lemma ClosePacked(st: Packing, ps: seq<string>, max: int)
    requires Packed(st, ps, max)
    ensures var gs := Close(st);
      && NonEmpty(Flatten(gs)) == NonEmpty(ps)
      && (forall k :: 0 <= k < |gs| ==> Concat(gs[k]) != "")
      && (forall k :: 0 <= k < |gs| ==> |gs[k]| > 1 ==> |Concat(gs[k])| <= max)
      && (forall k :: 0 <= k < |gs| - 1 ==> Finished(gs, k, max))
  {
    if Concat(st.current) != "" {
      FlattenSnoc(st.groups, st.current);
      FinishGreedy(st.groups, st.current, max);
      var gs := st.groups + [st.current];
      assert gs[|gs| - 1] == st.current;
    } else {
      var fl := Flatten(st.groups);
      NonEmptyOfBlank(st.current);
      NonEmptyAppend(fl, st.current);
      assert NonEmpty(fl) + [] == NonEmpty(fl);
    }
  }

  lemma BodyPacked(children: seq<string>, max: int)
    ensures var gs := BodyGroups(children, max);
      && NonEmpty(Flatten(gs)) == NonEmpty(Pieces(children, max))
      && (forall k :: 0 <= k < |gs| ==> Concat(gs[k]) != "")
      && (forall k :: 0 <= k < |gs| ==> |gs[k]| > 1 ==> |Concat(gs[k])| <= max)
      && (forall k :: 0 <= k < |gs| - 1 ==> Finished(gs, k, max))
  {
    var ps := Pieces(children, max);
    PackPacked(ps, max);
    ClosePacked(Pack(ps, max), ps, max);
  }

  // ---------------------------------------------------------------------------
  // What the chunks promise

  /** The chunks put the body's children back together, in order. */
  lemma ChunksConcat(children: seq<string>, max: int)
    ensures Concat(Texts(BodyGroups(children, max))) == Concat(children)
  {
    var gs := BodyGroups(children, max);
    BodyPacked(children, max);
    ConcatFlatten(gs);
    ConcatNonEmpty(Flatten(gs));
    ConcatNonEmpty(Pieces(children, max));
    PiecesConcat(children, max);
  }

  /** No chunk is empty. */
  lemma ChunksNonEmpty(children: seq<string>, max: int)
    ensures forall k :: 0 <= k < |BodyGroups(children, max)| ==> Texts(BodyGroups(children, max))[k] != ""
  {
    BodyPacked(children, max);
  }

  /** Each chunk is a run of whole pieces: the chunks' pieces are the
      non-empty pieces, in order, and a chunk longer than `max` is a single
      piece. */
  lemma ChunksOfPieces(children: seq<string>, max: int)
    ensures var gs := BodyGroups(children, max);
      && NonEmpty(Flatten(gs)) == NonEmpty(Pieces(children, max))
      && (forall k :: 0 <= k < |gs| ==> |Texts(gs)[k]| > max ==> |gs[k]| == 1)
  {
    BodyPacked(children, max);
  }

  /** A chunk was finished only because the first piece of the next one would
      have pushed it past `max`. */
  lemma ChunksGreedy(children: seq<string>, max: int)
    ensures var gs := BodyGroups(children, max);
      forall k :: 0 <= k < |gs| - 1 ==> |gs[k + 1]| > 0 && |Texts(gs)[k]| + |gs[k + 1][0]| > max
  {
    var gs := BodyGroups(children, max);
    BodyPacked(children, max);
    forall k | 0 <= k < |gs| - 1 ensures |gs[k + 1]| > 0 && |Texts(gs)[k]| + |gs[k + 1][0]| > max {
      FinishedText(gs, k, max);
    }
  }

  lemma FinishedText(gs: seq<seq<string>>, k: nat, max: int)
    requires k + 1 < |gs| && Finished(gs, k, max)
    ensures |gs[k + 1]| > 0 && |Texts(gs)[k]| + |gs[k + 1][0]| > max
  {
  }

  /** With every child within `max`, no child is divided: the pieces are the
      children themselves. */
  lemma {:induction false} ShortChildrenWhole(children: seq<string>, max: int)
    requires forall k :: 0 <= k < |children| ==> |children[k]| <= max
    ensures Pieces(children, max) == children
    decreases |children|
  {
    if children != [] {
      ShortChildrenWhole(children[..|children| - 1], max);
      assert children[..|children| - 1] + [children[|children| - 1]] == children;
    }
  }

  // ---------------------------------------------------------------------------
  // The loop

  /** `split_html_intelligently` once the document is parsed: `head` is
      `str(head)` when there is a `<head>`, `body` the strings of the body's
      children when there is a `<body>`. */
  method SplitHtmlIntelligently(head: Option<string>, body: Option<seq<string>>, maxChunkSize: int)
    returns (headContent: string, chunks: seq<string>)
    ensures (headContent, chunks) == SplitHtml(head, body, maxChunkSize)
    ensures body.None? ==> chunks == []
  {
    headContent := if head.Some? then head.value else "";
    chunks := [];
    var currentChunk := "";
    if body.Some? {
      var children := body.value;
      ghost var done: seq<string> := [];
      var j := 0;
      while j < |children|
        invariant 0 <= j <= |children|
        invariant done == Pieces(children[..j], maxChunkSize)
        invariant (chunks, currentChunk) == PackText(done, maxChunkSize)
      {
        var elementStr := children[j];
        PiecesSnoc(children, j, maxChunkSize);
        if |elementStr| > maxChunkSize {
          var paragraphs := ReSplit(elementStr);
          chunks, currentChunk := PackParagraphs(paragraphs, maxChunkSize, chunks, currentChunk, done);
        } else {
          if |currentChunk| + |elementStr| > maxChunkSize {
            chunks := chunks + [currentChunk];
            currentChunk := elementStr;
          } else {
            currentChunk := currentChunk + elementStr;
          }
          PackTextSnoc(done, elementStr, maxChunkSize);
        }
        done := done + PiecesOf(elementStr, maxChunkSize);
        j := j + 1;
        assert done == Pieces(children[..j], maxChunkSize);
      }
      assert children[..j] == children;
      CloseText(done, maxChunkSize);
      if currentChunk != "" {
        chunks := chunks + [currentChunk];
      }
    }
  }

  /** The inner loop over the parts of an oversized child: every
      `paragraphs[i] + paragraphs[i + 1]` (the last part alone) is packed in
      turn, after the pieces `done`. */
  method PackParagraphs(paragraphs: seq<string>, maxChunkSize: int,
                        chunks0: seq<string>, current0: string, ghost done: seq<string>)
    returns (chunks: seq<string>, currentChunk: string)
    requires (chunks0, current0) == PackText(done, maxChunkSize)
    ensures (chunks, currentChunk) == PackText(done + Pairs(paragraphs), maxChunkSize)
  {
    chunks, currentChunk := chunks0, current0;
    ghost var pairs := Pairs(paragraphs);
    PairsLength(paragraphs);
    assert done + pairs[..0] == done;
    var i := 0;
    ghost var n := 0;
    while i < |paragraphs|
      invariant i == 2 * n && n <= |pairs|
      invariant (chunks, currentChunk) == PackText(done + pairs[..n], maxChunkSize)
    {
      var p := paragraphs[i] + (if i + 1 < |paragraphs| then paragraphs[i + 1] else "");
      PairsAt(paragraphs, n, i);
      if |currentChunk| + |p| > maxChunkSize {
        if currentChunk != "" {
          chunks := chunks + [currentChunk];
        }
        currentChunk := p;
      } else {
        currentChunk := currentChunk + p;
      }
      PackTextSnoc(done + pairs[..n], p, maxChunkSize);
      PrefixSnoc(done, pairs, n);
      i := i + 2;
      n := n + 1;
    }
    assert pairs[..n] == pairs;
  }

  lemma PiecesSnoc(children: seq<string>, j: nat, max: int)
    requires j < |children|
    ensures Pieces(children[..j + 1], max) == Pieces(children[..j], max) + PiecesOf(children[j], max)
  {
    assert children[..j + 1][..j] == children[..j];
  }

  lemma PrefixSnoc<T>(a: seq<T>, b: seq<T>, n: nat)
    requires n < |b|
    ensures (a + b[..n]) + [b[n]] == a + b[..n + 1]
  {
    assert b[..n + 1] == b[..n] + [b[n]];
  }

  /** What the loop keeps of a packing: the finished chunk strings and the
      current chunk string. */
  function StepText(t: (seq<string>, string), p: string, max: int): (seq<string>, string) {
    if |t.1| + |p| > max then (if t.1 != "" then t.0 + [t.1] else t.0, p) else (t.0, t.1 + p)
  }

  function PackText(ps: seq<string>, max: int): (seq<string>, string)
    decreases |ps|
  {
    if ps == [] then ([], "") else StepText(PackText(ps[..|ps| - 1], max), ps[|ps| - 1], max)
  }

  lemma PackTextSnoc(ps: seq<string>, p: string, max: int)
    ensures PackText(ps + [p], max) == StepText(PackText(ps, max), p, max)
  {
    assert (ps + [p])[..|ps|] == ps;
  }

  /** The strings the loop keeps are those of the packing. */
  lemma {:induction false} PackTextMirrors(ps: seq<string>, max: int)
    ensures PackText(ps, max) == (Texts(Pack(ps, max).groups), Concat(Pack(ps, max).current))
    decreases |ps|
  {
    if ps != [] {
      var init, p := ps[..|ps| - 1], ps[|ps| - 1];
      PackTextMirrors(init, max);
      StepStrings(Pack(init, max), p, max);
    }
  }

  /** The final `if current_chunk: chunks.append(current_chunk)` on the
      strings is `Close` on the packing. */
  lemma CloseText(ps: seq<string>, max: int)
    ensures var t := PackText(ps, max);
      Texts(Close(Pack(ps, max))) == if t.1 != "" then t.0 + [t.1] else t.0
  {
    PackTextMirrors(ps, max);
    var st := Pack(ps, max);
    assert Texts(st.groups + [st.current]) == Texts(st.groups) + [Concat(st.current)];
  }

  /** One step on the strings, as `Step` describes it on the pieces. */
  lemma StepStrings(st: Packing, p: string, max: int)
    ensures (Texts(Step(st, p, max).groups), Concat(Step(st, p, max).current))
         == StepText((Texts(st.groups), Concat(st.current)), p, max)
  {
    if |Concat(st.current)| + |p| > max {
      ConcatSingleton(p);
      if Concat(st.current) != "" {
        assert Texts(st.groups + [st.current]) == Texts(st.groups) + [Concat(st.current)];
      }
    } else {
      ConcatSnoc(st.current, p);
    }
  }
}
