/** Facts about strings used by the locale and cache-key encodings. */
module Strings {

  /** `s` does not contain the character `c`. */
  predicate Excludes(s: string, c: char)
  {
    forall i :: 0 <= i < |s| ==> s[i] != c
  }

  /** `s` is empty or starts with the character `c`. */
  predicate EmptyOrStartsWith(s: string, c: char)
  {
    s == [] || s[0] == c
  }

  /**
   * If `a1 + b1 == a2 + b2`, neither `a1` nor `a2` contains `c`, and each of `b1`, `b2`
   * is empty or starts with `c`, then the two splits coincide: the first `c` of the
   * string (or its end) separates it uniquely.
   */
  lemma SplitAtFirst(a1: string, b1: string, a2: string, b2: string, c: char)
    requires Excludes(a1, c) && Excludes(a2, c)
    requires EmptyOrStartsWith(b1, c) && EmptyOrStartsWith(b2, c)
    requires a1 + b1 == a2 + b2
    ensures a1 == a2 && b1 == b2
  {
    var s := a1 + b1;
    FirstIndexOfSplit(a1, b1, c);
    FirstIndexOfSplit(a2, b2, c);
    assert a1 == s[..|a1|] == a2;
    assert b1 == s[|a1|..] == b2;
  }

  /** The index of the first `c` in `s`, or `|s|` when there is none. */
  function FirstIndexOf(s: string, c: char): (n: nat)
    ensures n <= |s|
  {
    if s == [] || s[0] == c then 0 else 1 + FirstIndexOf(s[1..], c)
  }

  /** The first `c` in `a + b` sits right after `a` when `a` has none and `b` is empty or starts with one. */
  lemma {:induction false} FirstIndexOfSplit(a: string, b: string, c: char)
    requires Excludes(a, c) && EmptyOrStartsWith(b, c)
    ensures FirstIndexOf(a + b, c) == |a|
  {
    if a != [] {
      assert (a + b)[1..] == a[1..] + b;
      FirstIndexOfSplit(a[1..], b, c);
    }
  }

  /** Equal strings after a common prefix are equal. */
  lemma CancelPrefix(p: string, x: string, y: string)
    requires p + x == p + y
    ensures x == y
  {
    assert x == (p + x)[|p|..];
    assert y == (p + y)[|p|..];
  }

  /** Equal strings before a common suffix are equal. */
  lemma CancelSuffix(x: string, y: string, q: string)
    requires x + q == y + q
    ensures x == y
  {
    assert x == (x + q)[..|x|];
    assert y == (y + q)[..|y|];
  }

  /** The sum of the lengths of `parts`. */
  function TotalLength(parts: seq<string>): nat
    decreases |parts|
  {
    if parts == [] then 0 else |parts[0]| + TotalLength(parts[1..])
  }

  /**
   * The elements of `parts` separated by `sep`: JavaScript's `Array.prototype.join`,
   * which is also what an array of strings turns into when it is concatenated to a string.
   */
  function Join(parts: seq<string>, sep: char): (r: string)
    ensures |r| == TotalLength(parts) + (if |parts| == 0 then 0 else |parts| - 1)
    decreases |parts|
  {
    if |parts| == 0 then ""
    else if |parts| == 1 then parts[0]
    else parts[0] + [sep] + Join(parts[1..], sep)
  }

  /** A character that is in no part and is not the separator is not in the joined string. */
  lemma {:induction false} JoinExcludes(parts: seq<string>, sep: char, c: char)
    requires c != sep
    requires forall i :: 0 <= i < |parts| ==> Excludes(parts[i], c)
    ensures Excludes(Join(parts, sep), c)
    decreases |parts|
  {
    if |parts| > 1 {
      JoinExcludes(parts[1..], sep, c);
      var rest := Join(parts[1..], sep);
      assert Join(parts, sep) == parts[0] + ([sep] + rest);
      forall i | 0 <= i < |Join(parts, sep)| ensures Join(parts, sep)[i] != c {
        if i < |parts[0]| {
          assert Join(parts, sep)[i] == parts[0][i];
        } else if i == |parts[0]| {
          assert Join(parts, sep)[i] == sep;
        } else {
          assert Join(parts, sep)[i] == rest[i - |parts[0]| - 1];
        }
      }
    }
  }

  /**
   * Joining non-empty parts that do not contain the separator is injective: the
   * joined string determines the parts.
   */
  lemma {:induction false} JoinInjective(a: seq<string>, b: seq<string>, sep: char)
    requires forall i :: 0 <= i < |a| ==> a[i] != [] && Excludes(a[i], sep)
    requires forall i :: 0 <= i < |b| ==> b[i] != [] && Excludes(b[i], sep)
    requires Join(a, sep) == Join(b, sep)
    ensures a == b
    decreases |a|
  {
    if |a| == 0 || |b| == 0 {
      if |a| != 0 {
        JoinHead(a, sep);
      } else if |b| != 0 {
        JoinHead(b, sep);
      }
    } else {
      var ta := if |a| == 1 then "" else [sep] + Join(a[1..], sep);
      var tb := if |b| == 1 then "" else [sep] + Join(b[1..], sep);
      assert Join(a, sep) == a[0] + ta;
      assert Join(b, sep) == b[0] + tb;
      SplitAtFirst(a[0], ta, b[0], tb, sep);
      if |a| == 1 && |b| == 1 {
      } else if |a| == 1 {
        assert false;
      } else if |b| == 1 {
        assert false;
      } else {
        CancelPrefix([sep], Join(a[1..], sep), Join(b[1..], sep));
        JoinInjective(a[1..], b[1..], sep);
        assert a == [a[0]] + a[1..];
        assert b == [b[0]] + b[1..];
      }
    }
  }

  /** A joined string starts with the first part, so it is not empty when that part is not. */
  lemma JoinHead(parts: seq<string>, sep: char)
    requires |parts| > 0
    ensures |Join(parts, sep)| >= |parts[0]|
    ensures Join(parts, sep)[..|parts[0]|] == parts[0]
    ensures parts[0] != [] ==> Join(parts, sep) != []
  {
  }
}
