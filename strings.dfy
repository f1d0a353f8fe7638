/** Python string operations the pipeline relies on: `''.join`, `' '.join`,
    `str.isspace`, `str.strip` and the decimal rendering of `f"{idx}"`. */
module Strings {

  /** `''.join(parts)`, defined by adding the last part to the join of the others. */
  function Concat(parts: seq<string>): string
    decreases |parts|
  {
    if parts == [] then "" else Concat(parts[..|parts| - 1]) + parts[|parts| - 1]
  }

  lemma ConcatSnoc(parts: seq<string>, x: string)
    ensures Concat(parts + [x]) == Concat(parts) + x
  {
    assert (parts + [x])[..|parts|] == parts;
  }

  lemma {:induction false} ConcatAppend(a: seq<string>, b: seq<string>)
    ensures Concat(a + b) == Concat(a) + Concat(b)
    decreases |b|
  {
    if b == [] {
      assert a + b == a;
    } else {
      var b' := b[..|b| - 1];
      assert a + b == (a + b') + [b[|b| - 1]];
      ConcatSnoc(a + b', b[|b| - 1]);
      ConcatAppend(a, b');
      ConcatSnoc(b', b[|b| - 1]);
      assert b' + [b[|b| - 1]] == b;
    }
  }

  lemma ConcatSingleton(x: string)
    ensures Concat([x]) == x
  {
    assert [x][..0] == [];
  }

  /** `sep.join(parts)`: the parts in order with `sep` between neighbours. */
  function Join(sep: string, parts: seq<string>): string
    decreases |parts|
  {
    if |parts| == 0 then ""
    else if |parts| == 1 then parts[0]
    else Join(sep, parts[..|parts| - 1]) + sep + parts[|parts| - 1]
  }

  /** The characters Python's `str.isspace` and `str.strip()` treat as white space. */
  predicate IsPySpace(c: char) {
    var u := c as int;
    || (0x09 <= u <= 0x0D) || (0x1C <= u <= 0x20)
    || u == 0x85 || u == 0xA0 || u == 0x1680
    || (0x2000 <= u <= 0x200A)
    || u == 0x2028 || u == 0x2029 || u == 0x202F || u == 0x205F || u == 0x3000
  }

  /** Python's `s.isspace()`: at least one character, and all of them white space. */
  predicate IsSpace(s: string) {
    |s| > 0 && forall i :: 0 <= i < |s| ==> IsPySpace(s[i])
  }

  /** The text-node test `text and not text.isspace()`. */
  predicate HasText(s: string) {
    s != "" && !IsSpace(s)
  }

  /** `s.lstrip()`: drops the leading white space. */
  function TrimStart(s: string): string
    decreases |s|
  {
    if s != "" && IsPySpace(s[0]) then TrimStart(s[1..]) else s
  }

  /** `s.rstrip()`: drops the trailing white space. */
  function TrimEnd(s: string): string
    decreases |s|
  {
    if s != "" && IsPySpace(s[|s| - 1]) then TrimEnd(s[..|s| - 1]) else s
  }

  /** `s.strip()`. */
  function Strip(s: string): string {
    TrimEnd(TrimStart(s))
  }

  /** `lstrip` removes a white-space prefix, and stops at the first other character. */
  lemma {:induction false} TrimStartShape(s: string)
    ensures exists k :: 0 <= k <= |s| && TrimStart(s) == s[k..] && forall i :: 0 <= i < k ==> IsPySpace(s[i])
    ensures TrimStart(s) != "" ==> !IsPySpace(TrimStart(s)[0])
    decreases |s|
  {
    if s != "" && IsPySpace(s[0]) {
      TrimStartShape(s[1..]);
      var k :| 0 <= k <= |s[1..]| && TrimStart(s[1..]) == s[1..][k..] && forall i :: 0 <= i < k ==> IsPySpace(s[1..][i]);
      assert TrimStart(s) == s[k + 1..];
      forall i | 0 <= i < k + 1 ensures IsPySpace(s[i]) {
        if i > 0 { assert s[i] == s[1..][i - 1]; }
      }
    } else {
      assert s[0..] == s;
    }
  }

  /** `rstrip` removes a white-space suffix, and stops at the last other character. */
  lemma {:induction false} TrimEndShape(s: string)
    ensures exists k :: 0 <= k <= |s| && TrimEnd(s) == s[..k] && forall i :: k <= i < |s| ==> IsPySpace(s[i])
    ensures TrimEnd(s) != "" ==> !IsPySpace(TrimEnd(s)[|TrimEnd(s)| - 1])
    decreases |s|
  {
    if s != "" && IsPySpace(s[|s| - 1]) {
      var s' := s[..|s| - 1];
      TrimEndShape(s');
      var k :| 0 <= k <= |s'| && TrimEnd(s') == s'[..k] && forall i :: k <= i < |s'| ==> IsPySpace(s'[i]);
      assert TrimEnd(s) == s[..k];
      forall i | k <= i < |s| ensures IsPySpace(s[i]) {
        if i < |s| - 1 { assert s[i] == s'[i]; }
      }
    } else {
      assert s[..|s|] == s;
    }
  }

  /** The attribute test `val.strip()` (non-empty after stripping) and the
      text-node test `text and not text.isspace()` accept the same strings. */
  lemma StripNonEmptyIffHasText(s: string)
    ensures Strip(s) != "" <==> HasText(s)
  {
    TrimStartShape(s);
    var t := TrimStart(s);
    var k :| 0 <= k <= |s| && t == s[k..] && forall i :: 0 <= i < k ==> IsPySpace(s[i]);
    if HasText(s) {
      var j :| 0 <= j < |s| && !IsPySpace(s[j]);
      assert j >= k;
      assert t != "" && !IsPySpace(t[0]);
      TrimEndShape(t);
      var m :| 0 <= m <= |t| && TrimEnd(t) == t[..m] && forall i :: m <= i < |t| ==> IsPySpace(t[i]);
      assert m > 0;
    } else {
      assert forall i :: 0 <= i < |s| ==> IsPySpace(s[i]);
      assert t == "";
    }
  }

  /** The truth value of `s.strip()`: whether anything is left after stripping. */
  method StripIsNonEmpty(s: string) returns (b: bool)
    ensures b <==> HasText(s)
  {
    StripNonEmptyIffHasText(s);
    b := Strip(s) != "";
  }

  function Digit(d: nat): (c: char)
    requires d < 10
    ensures '0' <= c <= '9'
  {
    ('0' as int + d) as char
  }

  /** `str(n)` for a natural number: base-ten digits, most significant first. */
  function Decimal(n: nat): string
    decreases n
  {
    if n < 10 then [Digit(n)] else Decimal(n / 10) + [Digit(n % 10)]
  }

  /** The rendering is a non-empty run of digits with no leading zero. */
  lemma {:induction false} DecimalShape(n: nat)
    ensures |Decimal(n)| > 0
    ensures forall i :: 0 <= i < |Decimal(n)| ==> '0' <= Decimal(n)[i] <= '9'
    ensures Decimal(n)[0] == '0' ==> n == 0
    decreases n
  {
    if n >= 10 {
      DecimalShape(n / 10);
      assert Decimal(n)[0] == Decimal(n / 10)[0];
    }
  }

  /** Distinct numbers have distinct decimal renderings. */
  lemma {:induction false} DecimalInjective(m: nat, n: nat)
    requires Decimal(m) == Decimal(n)
    ensures m == n
    decreases m
  {
    if m < 10 || n < 10 {
      DecimalShape(m / 10);
      DecimalShape(n / 10);
    } else {
      var dm, dn := Decimal(m), Decimal(n);
      assert dm[..|dm| - 1] == Decimal(m / 10);
      assert dn[..|dn| - 1] == Decimal(n / 10);
      DecimalInjective(m / 10, n / 10);
      assert Digit(m % 10) == dm[|dm| - 1] == dn[|dn| - 1] == Digit(n % 10);
    }
  }
}
