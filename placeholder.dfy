/** The placeholder protocol: the token `[[[T<n>]]]` that stands for the n-th
    translatable unit, the pattern `\[\[\[T\d+\]\]\]` that finds tokens again,
    and the single left-to-right `re.sub` pass that resolves them. */
module Placeholder {
  import opened Strings

  /** `f"[[[T{idx}]]]"`. */
  const KeyOpen: string := "[[[T"
  const KeyClose: string := "]]]"
  function Key(idx: nat): string {
    KeyOpen + Decimal(idx) + KeyClose
  }

  /** Different counters give different tokens. */
  lemma KeyInjective(i: nat, j: nat)
    requires Key(i) == Key(j)
    ensures i == j
  {
    var ki, kj := Key(i), Key(j);
    assert ki[4..|ki| - 3] == Decimal(i);
    assert kj[4..|kj| - 3] == Decimal(j);
    DecimalInjective(i, j);
  }

  /** Tokens of different counters differ. */
  lemma KeysDistinct(i: nat, j: nat)
    ensures i != j ==> Key(i) != Key(j)
  {
    if Key(i) == Key(j) {
      KeyInjective(i, j);
    }
  }

  /** The characters `\d` matches. */
  predicate IsDigitChar(c: char) {
    '0' <= c <= '9'
  }

  /** The characters a match of the pattern can contain. */
  predicate InPattern(c: char) {
    c == '[' || c == ']' || c == 'T' || IsDigitChar(c)
  }

  /** The end of the run of digits that starts at `i`. */
  function DigitRun(s: string, i: nat): (j: nat)
    requires i <= |s|
    ensures i <= j <= |s|
    decreases |s| - i
  {
    if i < |s| && IsDigitChar(s[i]) then DigitRun(s, i + 1) else i
  }

  /** The run holds digits only. */
  lemma {:induction false} DigitRunDigits(s: string, i: nat)
    requires i <= |s|
    ensures forall k :: i <= k < DigitRun(s, i) ==> IsDigitChar(s[k])
    decreases |s| - i
  {
    if i < |s| && IsDigitChar(s[i]) {
      DigitRunDigits(s, i + 1);
    }
  }

  /** The run depends only on the characters up to the one that ends it. */
  lemma {:induction false} DigitRunAgree(s: string, t: string, i: nat)
    requires i <= |s| && i <= |t|
    requires DigitRun(s, i) < |s| && DigitRun(s, i) < |t|
    requires forall k :: i <= k <= DigitRun(s, i) ==> s[k] == t[k]
    ensures DigitRun(t, i) == DigitRun(s, i)
    decreases |s| - i
  {
    if IsDigitChar(s[i]) {
      DigitRunAgree(s, t, i + 1);
    }
  }

  /** A run of digits that a non-digit ends is the digit run. */
  lemma {:induction false} DigitRunEnd(s: string, i: nat, j: nat)
    requires i <= j < |s|
    requires forall k :: i <= k < j ==> IsDigitChar(s[k])
    requires !IsDigitChar(s[j])
    ensures DigitRun(s, i) == j
    decreases j - i
  {
    if i < j {
      DigitRunEnd(s, i + 1, j);
    }
  }

  /** The length of the match of `\[\[\[T\d+\]\]\]` that starts at position
      `i` of `s`, or 0 when there is none. `\d+` takes every digit, and a
      shorter run would be followed by a digit instead of `]`, so the greedy
      run is the only candidate. */
  function MatchAt(s: string, i: nat): (n: nat)
    requires i <= |s|
    ensures i + n <= |s|
  {
    if i + 4 <= |s| && s[i] == '[' && s[i + 1] == '[' && s[i + 2] == '[' && s[i + 3] == 'T' then
      var d := DigitRun(s, i + 4);
      if d > i + 4 && d + 3 <= |s| && s[d] == ']' && s[d + 1] == ']' && s[d + 2] == ']' then d + 3 - i else 0
    else 0
  }

  /** A match is `[[[T`, one or more digits and `]]]`, and uses only
      characters of the pattern. */
  lemma MatchShape(s: string, i: nat)
    requires i <= |s|
    ensures MatchAt(s, i) > 0 ==> MatchAt(s, i) >= 8 && s[i..i + 4] == KeyOpen
    ensures MatchAt(s, i) > 0 ==> s[i + MatchAt(s, i) - 3..i + MatchAt(s, i)] == KeyClose
    ensures MatchAt(s, i) > 0 ==> forall k :: i + 4 <= k < i + MatchAt(s, i) - 3 ==> IsDigitChar(s[k])
    ensures forall k :: i <= k < i + MatchAt(s, i) ==> InPattern(s[k])
  {
    var n := MatchAt(s, i);
    if n > 0 {
      DigitRunDigits(s, i + 4);
      assert s[i..i + 4] == KeyOpen;
      assert s[i + n - 3..i + n] == KeyClose;
    }
  }

  /** A match starts with `[`. */
  lemma MatchStart(s: string, i: nat)
    requires i <= |s|
    ensures MatchAt(s, i) > 0 ==> i < |s| && s[i] == '['
  {
    MatchShape(s, i);
    if MatchAt(s, i) > 0 {
      assert s[i..i + 4][0] == s[i];
    }
  }

  /** A match that starts at `i` and ends by `j` depends only on the
      characters from `i` to `j`. */
  lemma MatchAgree(s: string, t: string, i: nat, j: nat)
    requires i <= j <= |s| && j <= |t|
    requires forall k :: i <= k < j ==> s[k] == t[k]
    requires MatchAt(s, i) > 0 && i + MatchAt(s, i) <= j
    ensures MatchAt(t, i) == MatchAt(s, i)
  {
    DigitRunAgree(s, t, i + 4);
  }

  /** A token is matched whole by the pattern, whatever follows it. */
  lemma KeyMatches(idx: nat, rest: string)
    ensures MatchAt(Key(idx) + rest, 0) == |Key(idx)|
  {
    var s := Key(idx) + rest;
    var dec := Decimal(idx);
    DecimalShape(idx);
    assert s[4 + |dec|] == ']';
    assert forall k :: 4 <= k < 4 + |dec| ==> s[k] == dec[k - 4];
    DigitRunEnd(s, 4, 4 + |dec|);
  }

  /** No match can run across the joint of `a` and `b`: the character on one
      side of it cannot be part of any match. */
  predicate SafeJoint(a: string, b: string) {
    a == [] || b == [] || !InPattern(a[|a| - 1]) || !InPattern(b[0])
  }

  /** `mapping.get(token, token)`. */
  function Lookup(mapping: map<string, string>, token: string): string {
    if token in mapping then mapping[token] else token
  }

  /** The length of the match that starts at each position of `s`. */
  function MatchLengths(s: string): (lens: seq<nat>)
    ensures |lens| == |s|
  {
    seq(|s|, i requires 0 <= i < |s| => MatchAt(s, i))
  }

  /** The output of the `re.sub` scan from position `i` on, where `lens`
      holds the match lengths (a length that would run past the end of `s`
      counts as no match; `MatchLengths` never gives one). */
  function Scan(s: string, lens: seq<nat>, i: nat, mapping: map<string, string>): string
    requires |lens| == |s| && i <= |s|
    decreases |s| - i
  {
    if i == |s| then ""
    else if 0 < lens[i] <= |s| - i then Lookup(mapping, s[i..i + lens[i]]) + Scan(s, lens, i + lens[i], mapping)
    else [s[i]] + Scan(s, lens, i + 1, mapping)
  }

  /** `re.sub(r"\[\[\[T\d+\]\]\]", lambda m: mapping.get(m.group(0), m.group(0)), s)`:
      scanning left to right, each match is replaced and scanning resumes after
      it; every other character is copied. */
  function Substitute(s: string, mapping: map<string, string>): string {
    Scan(s, MatchLengths(s), 0, mapping)
  }

  lemma SliceAgree(s: string, t: string, i: nat, j: nat)
    requires i <= j <= |s| && j <= |t|
    requires forall k :: i <= k < j ==> s[k] == t[k]
    ensures s[i..j] == t[i..j]
  {
  }

  lemma AppendAssoc(x: string, y: string, z: string)
    ensures (x + y) + z == x + (y + z)
  {
  }

  lemma SliceSplit(s: string, i: nat, j: nat)
    requires i <= j <= |s|
    ensures s[i..] == s[i..j] + s[j..]
  {
  }

  /** A scan that finds no match copies the text. */
  lemma {:induction false} ScanNoMatch(s: string, lens: seq<nat>, i: nat, mapping: map<string, string>)
    requires |lens| == |s| && i <= |s|
    requires forall k :: i <= k < |s| ==> lens[k] == 0
    ensures Scan(s, lens, i, mapping) == s[i..]
    decreases |s| - i
  {
    if i < |s| {
      ScanMiss(s, lens, i, mapping);
      ScanNoMatch(s, lens, i + 1, mapping);
      SliceSplit(s, i, i + 1);
      assert s[i..i + 1] == [s[i]];
    }
  }

  /** `s` contains no text the pattern matches. */
  predicate NoMatch(s: string) {
    forall i :: 0 <= i < |s| ==> MatchAt(s, i) == 0
  }

  /** Text without matches is copied verbatim. */
  lemma SubstituteNoMatch(s: string, mapping: map<string, string>)
    requires NoMatch(s)
    ensures Substitute(s, mapping) == s
  {
    var lens := MatchLengths(s);
    forall k | 0 <= k < |s| ensures lens[k] == 0 {
      assert lens[k] == MatchAt(s, k);
    }
    ScanNoMatch(s, lens, 0, mapping);
  }

  /** A token becomes its mapped value; when it is not mapped it is left as it is. */
  lemma SubstituteKey(idx: nat, mapping: map<string, string>)
    ensures Substitute(Key(idx), mapping) == Lookup(mapping, Key(idx))
  {
    var k := Key(idx);
    var lens := MatchLengths(k);
    KeyMatches(idx, "");
    assert k + "" == k;
    assert lens[0] == |k|;
    assert k[0..|k|] == k;
    assert Scan(k, lens, |k|, mapping) == "";
  }

  /** One step of the scan at a match. */
  lemma ScanHit(s: string, lens: seq<nat>, i: nat, n: nat, mapping: map<string, string>)
    requires |lens| == |s| && i < |s| && lens[i] == n && 0 < n <= |s| - i
    ensures Scan(s, lens, i, mapping) == Lookup(mapping, s[i..i + n]) + Scan(s, lens, i + n, mapping)
  {
  }

  /** One step of the scan at a character that starts no match. */
  lemma ScanMiss(s: string, lens: seq<nat>, i: nat, mapping: map<string, string>)
    requires |lens| == |s| && i < |s| && !(0 < lens[i] <= |s| - i)
    ensures Scan(s, lens, i, mapping) == [s[i]] + Scan(s, lens, i + 1, mapping)
  {
  }

  /** `a` is a prefix of `s` with the same match lengths, and no match of
      `a` runs past its end. */
  predicate PrefixOf(s: string, ls: seq<nat>, a: string, la: seq<nat>) {
    && |ls| == |s| && |la| == |a| && |a| <= |s|
    && forall k :: 0 <= k < |a| ==> s[k] == a[k] && ls[k] == la[k] && k + la[k] <= |a|
  }

  /** The scan of `s` from a position inside its prefix `a` keeps in step
      with the scan of `a`, and then goes on from the end of `a`. */
  lemma {:induction false} ScanPrefix(s: string, ls: seq<nat>, a: string, la: seq<nat>, i: nat, mapping: map<string, string>)
    requires PrefixOf(s, ls, a, la) && i <= |a|
    ensures Scan(s, ls, i, mapping) == Scan(a, la, i, mapping) + Scan(s, ls, |a|, mapping)
    decreases |a| - i, 1
  {
    if i < |a| {
      if la[i] > 0 {
        ScanPrefixHit(s, ls, a, la, i, mapping);
      } else {
        ScanPrefixMiss(s, ls, a, la, i, mapping);
      }
    }
  }

  lemma {:induction false} ScanPrefixHit(s: string, ls: seq<nat>, a: string, la: seq<nat>, i: nat, mapping: map<string, string>)
    requires PrefixOf(s, ls, a, la) && i < |a| && la[i] > 0
    ensures Scan(s, ls, i, mapping) == Scan(a, la, i, mapping) + Scan(s, ls, |a|, mapping)
    decreases |a| - i, 0
  {
    var n := la[i];
    var t := Lookup(mapping, a[i..i + n]);
    assert ls[i] == n;
    SliceAgree(s, a, i, i + n);
    ScanHit(s, ls, i, n, mapping);
    ScanHit(a, la, i, n, mapping);
    ScanPrefix(s, ls, a, la, i + n, mapping);
    AppendAssoc(t, Scan(a, la, i + n, mapping), Scan(s, ls, |a|, mapping));
  }

  lemma {:induction false} ScanPrefixMiss(s: string, ls: seq<nat>, a: string, la: seq<nat>, i: nat, mapping: map<string, string>)
    requires PrefixOf(s, ls, a, la) && i < |a| && la[i] == 0
    ensures Scan(s, ls, i, mapping) == Scan(a, la, i, mapping) + Scan(s, ls, |a|, mapping)
    decreases |a| - i, 0
  {
    assert s[i] == a[i] && ls[i] == 0;
    ScanMiss(s, ls, i, mapping);
    ScanMiss(a, la, i, mapping);
    ScanPrefix(s, ls, a, la, i + 1, mapping);
    AppendAssoc([a[i]], Scan(a, la, i + 1, mapping), Scan(s, ls, |a|, mapping));
  }

  /** `b` with its match lengths sits in `s` from position `d` to the end. */
  predicate SuffixOf(s: string, ls: seq<nat>, b: string, lb: seq<nat>, d: nat) {
    && |ls| == |s| && |lb| == |b| && |s| == d + |b|
    && forall k :: d <= k < |s| ==> s[k] == b[k - d] && ls[k] == lb[k - d]
  }

  /** From the start of its suffix `b` on, the scan of `s` is the scan of `b`. */
  lemma {:induction false} ScanSuffix(s: string, ls: seq<nat>, b: string, lb: seq<nat>, d: nat, j: nat, mapping: map<string, string>)
    requires SuffixOf(s, ls, b, lb, d) && j <= |b|
    ensures Scan(s, ls, d + j, mapping) == Scan(b, lb, j, mapping)
    decreases |b| - j, 1
  {
    if j < |b| {
      if 0 < lb[j] <= |b| - j {
        ScanSuffixHit(s, ls, b, lb, d, j, mapping);
      } else {
        ScanSuffixMiss(s, ls, b, lb, d, j, mapping);
      }
    }
  }

  lemma {:induction false} ScanSuffixHit(s: string, ls: seq<nat>, b: string, lb: seq<nat>, d: nat, j: nat, mapping: map<string, string>)
    requires SuffixOf(s, ls, b, lb, d) && j < |b| && 0 < lb[j] <= |b| - j
    ensures Scan(s, ls, d + j, mapping) == Scan(b, lb, j, mapping)
    decreases |b| - j, 0
  {
    var n, x := lb[j], d + j;
    assert ls[x] == n;
    SuffixSlice(s, b, d, j, j + n);
    assert s[x..x + n] == b[j..j + n];
    ScanHit(s, ls, x, n, mapping);
    ScanHit(b, lb, j, n, mapping);
    ScanSuffix(s, ls, b, lb, d, j + n, mapping);
    assert Scan(s, ls, x + n, mapping) == Scan(b, lb, j + n, mapping);
  }

  lemma {:induction false} ScanSuffixMiss(s: string, ls: seq<nat>, b: string, lb: seq<nat>, d: nat, j: nat, mapping: map<string, string>)
    requires SuffixOf(s, ls, b, lb, d) && j < |b| && !(0 < lb[j] <= |b| - j)
    ensures Scan(s, ls, d + j, mapping) == Scan(b, lb, j, mapping)
    decreases |b| - j, 0
  {
    ScanMiss(s, ls, d + j, mapping);
    ScanMiss(b, lb, j, mapping);
    ScanSuffix(s, ls, b, lb, d, j + 1, mapping);
  }

  lemma SuffixSlice(s: string, b: string, d: nat, i: nat, j: nat)
    requires |s| == d + |b| && i <= j <= |b|
    requires forall k :: d <= k < |s| ==> s[k] == b[k - d]
    ensures s[d + i..d + j] == b[i..j]
  {
    forall k | 0 <= k < j - i ensures s[d + i..d + j][k] == b[i..j][k] {
      assert s[d + i + k] == b[i + k];
    }
  }

  /** Across a joint no match can cross, the matches of `a + b` are those of
      `a` followed by those of `b`. */
  lemma MatchLengthsConcat(a: string, b: string)
    requires SafeJoint(a, b)
    ensures forall k :: 0 <= k < |a| ==> MatchLengths(a + b)[k] == MatchLengths(a)[k]
    ensures forall k :: 0 <= k < |b| ==> MatchLengths(a + b)[|a| + k] == MatchLengths(b)[k]
    ensures forall k :: 0 <= k < |a| ==> k + MatchLengths(a)[k] <= |a|
  {
    var s := a + b;
    forall k | 0 <= k < |a| ensures MatchLengths(s)[k] == MatchLengths(a)[k] && k + MatchLengths(a)[k] <= |a| {
      MatchPrefix(a, b, k);
    }
    forall k | 0 <= k < |b| ensures MatchLengths(s)[|a| + k] == MatchLengths(b)[k] {
      MatchSuffix(a, b, k);
    }
  }

  /** A match in `a + b` that starts in `a` is a match of `a`, and the other way round. */
  lemma MatchPrefix(a: string, b: string, k: nat)
    requires SafeJoint(a, b) && k < |a|
    ensures MatchAt(a + b, k) == MatchAt(a, k)
  {
    var s := a + b;
    assert forall i :: 0 <= i < |a| ==> s[i] == a[i];
    MatchShape(s, k);
    var n := MatchAt(s, k);
    assert s[|a| - 1] == a[|a| - 1];
    if b != [] {
      assert s[|a|] == b[0];
    }
    assert k + n <= |a|;
    if n > 0 {
      MatchAgree(s, a, k, |a|);
    } else if MatchAt(a, k) > 0 {
      MatchAgree(a, s, k, |a|);
    }
  }

  /** `b` sits in `s` from position `d` to the end. */
  predicate SuffixAt(s: string, b: string, d: nat) {
    |s| == d + |b| && forall k :: 0 <= k < |b| ==> s[d + k] == b[k]
  }

  lemma {:induction false} DigitRunShift(s: string, b: string, d: nat, j: nat)
    requires SuffixAt(s, b, d) && j <= |b|
    ensures DigitRun(s, d + j) == d + DigitRun(b, j)
    decreases |b| - j
  {
    if j < |b| {
      assert s[d + j] == b[j];
      DigitRunShift(s, b, d, j + 1);
    }
  }

  /** Matches in `b` are found at the shifted positions of `s`. */
  lemma MatchShift(s: string, b: string, d: nat, j: nat)
    requires SuffixAt(s, b, d) && j < |b|
    ensures MatchAt(s, d + j) == MatchAt(b, j)
  {
    if j + 4 <= |b| {
      assert s[d + j] == b[j] && s[d + j + 1] == b[j + 1] && s[d + j + 2] == b[j + 2] && s[d + j + 3] == b[j + 3];
      DigitRunShift(s, b, d, j + 4);
      var e := DigitRun(b, j + 4);
      if e + 3 <= |b| {
        assert s[d + e] == b[e] && s[d + e + 1] == b[e + 1] && s[d + e + 2] == b[e + 2];
      }
    }
  }

  /** A match in `a + b` that starts in `b` is the shifted match of `b`. */
  lemma MatchSuffix(a: string, b: string, k: nat)
    requires k < |b|
    ensures MatchAt(a + b, |a| + k) == MatchAt(b, k)
  {
    var s := a + b;
    assert forall i :: 0 <= i < |b| ==> s[|a| + i] == b[i];
    MatchShift(s, b, |a|, k);
  }

  /** Substitution works piece by piece across a joint no match can cross. */
  lemma SubstituteConcat(a: string, b: string, mapping: map<string, string>)
    requires SafeJoint(a, b)
    ensures Substitute(a + b, mapping) == Substitute(a, mapping) + Substitute(b, mapping)
  {
    var s := a + b;
    var ls, la, lb := MatchLengths(s), MatchLengths(a), MatchLengths(b);
    MatchLengthsConcat(a, b);
    assert forall k :: 0 <= k < |a| ==> s[k] == a[k];
    assert forall k :: 0 <= k < |b| ==> s[|a| + k] == b[k];
    assert PrefixOf(s, ls, a, la);
    ScanPrefix(s, ls, a, la, 0, mapping);
    assert SuffixOf(s, ls, b, lb, |a|);
    ScanSuffix(s, ls, b, lb, |a|, 0, mapping);
  }

  /** A mapping that sends every token it knows to itself changes nothing,
      since unmapped tokens are left as they are. */
  lemma {:induction false} ScanIdentity(s: string, lens: seq<nat>, i: nat, mapping: map<string, string>)
    requires |lens| == |s| && i <= |s|
    requires forall k :: k in mapping ==> mapping[k] == k
    ensures Scan(s, lens, i, mapping) == s[i..]
    decreases |s| - i, 1
  {
    if i < |s| {
      if 0 < lens[i] <= |s| - i {
        ScanIdentityHit(s, lens, i, mapping);
      } else {
        ScanIdentityMiss(s, lens, i, mapping);
      }
    }
  }

  lemma {:induction false} ScanIdentityHit(s: string, lens: seq<nat>, i: nat, mapping: map<string, string>)
    requires |lens| == |s| && i < |s| && 0 < lens[i] <= |s| - i
    requires forall k :: k in mapping ==> mapping[k] == k
    ensures Scan(s, lens, i, mapping) == s[i..]
    decreases |s| - i, 0
  {
    var n := lens[i];
    ScanHit(s, lens, i, n, mapping);
    assert Lookup(mapping, s[i..i + n]) == s[i..i + n];
    ScanIdentity(s, lens, i + n, mapping);
    SliceSplit(s, i, i + n);
  }

  lemma {:induction false} ScanIdentityMiss(s: string, lens: seq<nat>, i: nat, mapping: map<string, string>)
    requires |lens| == |s| && i < |s| && !(0 < lens[i] <= |s| - i)
    requires forall k :: k in mapping ==> mapping[k] == k
    ensures Scan(s, lens, i, mapping) == s[i..]
    decreases |s| - i, 0
  {
    ScanMiss(s, lens, i, mapping);
    ScanIdentity(s, lens, i + 1, mapping);
    SliceSplit(s, i, i + 1);
    assert s[i..i + 1] == [s[i]];
  }

  lemma SubstituteIdentityMapping(s: string, mapping: map<string, string>)
    requires forall k :: k in mapping ==> mapping[k] == k
    ensures Substitute(s, mapping) == s
  {
    ScanIdentity(s, MatchLengths(s), 0, mapping);
  }
}
