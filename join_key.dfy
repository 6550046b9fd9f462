/**
 * The composite join key of a row: the string forms of its key cells joined
 * with a separator (Python's `'|'.join`). The key is only ever compared for
 * equality; `Split` is its inverse for parts that do not contain the
 * separator, which is what makes the key a faithful identity under that
 * condition.
 */
module JoinKey {

  const Separator: char := '|'

  /** `sep.join(parts)`. */
  function Join(parts: seq<string>, sep: char): string {
    if |parts| == 0 then ""
    else if |parts| == 1 then parts[0]
    else parts[0] + [sep] + Join(parts[1..], sep)
  }

  /** Position of the first occurrence of `c` in `s`. */
  function IndexOf(s: string, c: char): (i: nat)
    requires c in s
    ensures i < |s| && s[i] == c
    ensures forall k :: 0 <= k < i ==> s[k] != c
  {
    if s[0] == c then 0 else 1 + IndexOf(s[1..], c)
  }

  /** `s.split(sep)`. */
  function Split(s: string, sep: char): (parts: seq<string>)
    ensures |parts| > 0
    decreases |s|
  {
    if sep !in s then [s]
    else
      var i := IndexOf(s, sep);
      [s[..i]] + Split(s[i + 1..], sep)
  }

  predicate FreeOf(parts: seq<string>, sep: char) {
    forall k :: 0 <= k < |parts| ==> sep !in parts[k]
  }

  /** Splitting a join gives back the parts, provided no part holds the separator. */
  lemma {:induction false} SplitJoin(parts: seq<string>, sep: char)
    requires |parts| > 0 && FreeOf(parts, sep)
    ensures Split(Join(parts, sep), sep) == parts
  {
    if |parts| > 1 {
      var p, rest := parts[0], Join(parts[1..], sep);
      var s := p + [sep] + rest;
      assert Join(parts, sep) == s;
      assert s[|p|] == sep;
      assert forall k :: 0 <= k < |p| ==> s[k] == p[k];
      assert IndexOf(s, sep) == |p|;
      assert s[..|p|] == p;
      assert s[|p| + 1..] == rest;
      assert FreeOf(parts[1..], sep) by {
        forall k | 0 <= k < |parts| - 1 ensures sep !in parts[1..][k] {
          assert parts[1..][k] == parts[k + 1];
        }
      }
      SplitJoin(parts[1..], sep);
    }
  }

  /** Separator-free part lists that join to the same key are equal. */
  lemma JoinInjective(p: seq<string>, q: seq<string>, sep: char)
    requires |p| > 0 && |q| > 0 && FreeOf(p, sep) && FreeOf(q, sep)
    requires Join(p, sep) == Join(q, sep)
    ensures p == q
  {
    SplitJoin(p, sep);
    SplitJoin(q, sep);
  }

  /** A single part is its own key. */
  lemma JoinSingle(p: string, sep: char)
    ensures Join([p], sep) == p
  {
  }

  /** Appending a part appends the separator and the part to the key. */
  lemma {:induction false} JoinSnoc(parts: seq<string>, x: string, sep: char)
    ensures Join(parts + [x], sep) == if parts == [] then x else Join(parts, sep) + [sep] + x
  {
    if |parts| == 1 {
      assert parts + [x] == [parts[0], x];
      assert [parts[0], x][1..] == [x];
    } else if |parts| > 1 {
      assert (parts + [x])[1..] == parts[1..] + [x];
      JoinSnoc(parts[1..], x, sep);
    }
  }

  /** Position `k` of the part after a separator, read in the whole string. */
  lemma SuffixAt(a: string, x: string, sep: char, k: nat)
    requires k < |x|
    ensures (a + [sep] + x)[|a| + 1 + k] == x[k]
  {
  }

  /** The text after the last separator is the same in two equal keys. */
  lemma SameLastPart(a: string, x: string, b: string, y: string, sep: char)
    requires sep !in x && sep !in y
    requires a + [sep] + x == b + [sep] + y
    ensures x == y
  {
    var s := a + [sep] + x;
    if |x| < |y| {
      SuffixAt(b, y, sep, |y| - |x| - 1);
      assert false;
    } else if |y| < |x| {
      SuffixAt(a, x, sep, |x| - |y| - 1);
      assert false;
    }
    assert x == s[|s| - |x|..] == y;
  }

  /**
   * Two keys of the same number of parts agree on their last part when that
   * part is separator-free on both sides, whatever the other parts hold.
   */
  lemma JoinLastPart(p: seq<string>, x: string, q: seq<string>, y: string, sep: char)
    requires |p| == |q| && sep !in x && sep !in y
    requires Join(p + [x], sep) == Join(q + [y], sep)
    ensures x == y
  {
    JoinSnoc(p, x, sep);
    JoinSnoc(q, y, sep);
    if p != [] {
      SameLastPart(Join(p, sep), x, Join(q, sep), y, sep);
    }
  }

  /** Parts that contain the separator can collide: ["a|b", "c"] and ["a", "b|c"]. */
  lemma JoinCollides()
    ensures Join(["a|b", "c"], Separator) == Join(["a", "b|c"], Separator)
    ensures ["a|b", "c"] != ["a", "b|c"]
  {
    assert ["a|b", "c"][0] != ["a", "b|c"][0];
  }
}
