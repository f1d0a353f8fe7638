/** `_batched(seq, n)`: the originals cut into consecutive batches of `n`. */
module Batching {

  /** The elements of the batches, in order. */
  function Flatten<T>(bs: seq<seq<T>>): seq<T>
    decreases |bs|
  {
    if bs == [] then [] else Flatten(bs[..|bs| - 1]) + bs[|bs| - 1]
  }

  lemma FlattenSnoc<T>(bs: seq<seq<T>>, b: seq<T>)
    ensures Flatten(bs + [b]) == Flatten(bs) + b
  {
    assert (bs + [b])[..|bs|] == bs;
  }

  /** A batch is yielded once it holds `n` elements; since it always holds at
      least one, an `n` below 1 acts as 1. */
  function Width(n: int): nat {
    if n < 1 then 1 else n
  }

  /** The shape the generator promises: the batches hold the input in order,
      none is empty, none holds more than `w`, and all but the last hold `w`. */
  ghost predicate BatchesOf<T>(bs: seq<seq<T>>, s: seq<T>, w: nat) {
    && Flatten(bs) == s
    && (forall k :: 0 <= k < |bs| ==> 0 < |bs[k]| <= w)
    && (forall k :: 0 <= k < |bs| - 1 ==> |bs[k]| == w)
  }

  /** The batching, by recursion on the input: a first batch of `w`
      elements while more than `w` remain, then the rest. */
  function Chunks<T>(s: seq<T>, w: nat): seq<seq<T>>
    requires w > 0
    decreases |s|
  {
    if s == [] then [] else if |s| <= w then [s] else [s[..w]] + Chunks(s[w..], w)
  }

  lemma {:induction false} ChunksShape<T>(s: seq<T>, w: nat)
    requires w > 0
    ensures BatchesOf(Chunks(s, w), s, w)
    decreases |s|
  {
    if |s| > w {
      var rest := Chunks(s[w..], w);
      ChunksShape(s[w..], w);
      FlattenCons(s[..w], rest);
      assert s[..w] + s[w..] == s;
      var bs := [s[..w]] + rest;
      forall k | 0 <= k < |bs| ensures 0 < |bs[k]| <= w && (k < |bs| - 1 ==> |bs[k]| == w) {
        if k > 0 { assert bs[k] == rest[k - 1]; }
      }
    } else if s != [] {
      FlattenSnoc([], s);
    }
  }

  lemma {:induction false} FlattenCons<T>(b: seq<T>, bs: seq<seq<T>>)
    ensures Flatten([b] + bs) == b + Flatten(bs)
    decreases |bs|
  {
    if bs == [] {
      FlattenSnoc([], b);
    } else {
      var init, last := bs[..|bs| - 1], bs[|bs| - 1];
      FlattenCons(b, init);
      assert [b] + bs == ([b] + init) + [last];
      FlattenSnoc([b] + init, last);
      FlattenSnoc(init, last);
      assert init + [last] == bs;
    }
  }

  /** `list(_batched(s, n))`. */
  method Batched<T>(s: seq<T>, n: int) returns (batches: seq<seq<T>>)
    ensures BatchesOf(batches, s, Width(n))
    ensures batches == Chunks(s, Width(n))
  {
    var w := Width(n);
    batches := [];
    var b: seq<T> := [];
    var i := 0;
    while i < |s|
      invariant 0 <= i <= |s|
      invariant Flatten(batches) + b == s[..i]
      invariant forall k :: 0 <= k < |batches| ==> |batches[k]| == w
      invariant |b| < w
    {
      b := b + [s[i]];
      if |b| >= n {
        FlattenSnoc(batches, b);
        batches := batches + [b];
        b := [];
      }
      assert s[..i + 1] == s[..i] + [s[i]];
      i := i + 1;
    }
    assert s[..|s|] == s;
    if b != [] {
      FlattenSnoc(batches, b);
      batches := batches + [b];
    }
    ChunksShape(s, w);
    BatchesUnique(batches, Chunks(s, w), s, w);
  }

  /** Any two batchings of the same shape are the same batching: the shape
      pins the generator's output down. */
  lemma {:induction false} BatchesUnique<T>(bs: seq<seq<T>>, cs: seq<seq<T>>, s: seq<T>, w: nat)
    requires BatchesOf(bs, s, w) && BatchesOf(cs, s, w)
    ensures bs == cs
    decreases |s|
  {
    BatchesEmpty(bs, s, w);
    BatchesEmpty(cs, s, w);
    if s != [] {
      var bl, cl := bs[|bs| - 1], cs[|cs| - 1];
      var bi, ci := bs[..|bs| - 1], cs[..|cs| - 1];
      FlattenLength(bi, w);
      FlattenLength(ci, w);
      assert |bi| * w + |bl| == |s| == |ci| * w + |cl|;
      LastBatch(|bi|, |bl|, |ci|, |cl|, w);
      assert Flatten(bi) == s[..|s| - |bl|] && Flatten(ci) == s[..|s| - |cl|];
      assert bl == s[|s| - |bl|..] && cl == s[|s| - |cl|..];
      BatchesUnique(bi, ci, s[..|s| - |bl|], w);
      assert bs == bi + [bl] && cs == ci + [cl];
    }
  }

  /** There are batches exactly when there are elements. */
  lemma BatchesEmpty<T>(bs: seq<seq<T>>, s: seq<T>, w: nat)
    requires BatchesOf(bs, s, w)
    ensures bs == [] <==> s == []
  {
    if bs != [] {
      FlattenNonEmpty(bs);
    }
  }

  lemma {:induction false} FlattenLength<T>(bs: seq<seq<T>>, w: nat)
    requires forall k :: 0 <= k < |bs| ==> |bs[k]| == w
    ensures |Flatten(bs)| == |bs| * w
    decreases |bs|
  {
    if bs != [] {
      FlattenLength(bs[..|bs| - 1], w);
    }
  }

  lemma {:induction false} FlattenNonEmpty<T>(bs: seq<seq<T>>)
    requires bs != [] && |bs[0]| > 0
    ensures Flatten(bs) != []
    decreases |bs|
  {
    if |bs| > 1 {
      FlattenNonEmpty(bs[..|bs| - 1]);
    }
  }

  /** Full batches then one of 1 to `w` elements: the counts are fixed by the total. */
  lemma LastBatch(p: nat, x: nat, q: nat, y: nat, w: nat)
    requires 0 < x <= w && 0 < y <= w && p * w + x == q * w + y
    ensures p == q && x == y
  {
    MulBound(p - q, w);
    assert (p - q) * w == p * w - q * w;
  }

  lemma MulBound(d: int, w: nat)
    ensures d >= 1 ==> d * w >= w
    ensures d <= -1 ==> d * w <= -(w as int)
  {
    if d >= 1 {
      assert d * w == (d - 1) * w + w;
    } else if d <= -1 {
      assert d * w == (d + 1) * w - w;
    }
  }
}
