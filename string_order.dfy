/**
  * Three-way comparison of strings, the model's stand-in for `String.prototype.localeCompare`.
  * The locale-aware collation of the browser is replaced by ordinal lexicographic order on
  * characters; what the view relies on (a total order, a sign-valued result) is proved below.
  */
module StringOrder {

  /** -1, 0 or 1 as `a` sorts before, equal to, or after `b`; equal exactly when the strings are. */
  function StrCompare(a: string, b: string): (c: int)
    ensures -1 <= c <= 1
    ensures c == 0 <==> a == b
    decreases |a|
  {
    if a == [] then (if b == [] then 0 else -1)
    else if b == [] then 1
    else if a[0] < b[0] then -1
    else if a[0] > b[0] then 1
    else
      var c := StrCompare(a[1..], b[1..]);
      assert a == [a[0]] + a[1..] && b == [b[0]] + b[1..];
      c
  }

  /** Swapping the arguments negates the result. */
  lemma {:induction false} StrCompareAntisymmetric(a: string, b: string)
    ensures StrCompare(b, a) == -StrCompare(a, b)
    decreases |a|
  {
    if a != [] && b != [] && a[0] == b[0] {
      StrCompareAntisymmetric(a[1..], b[1..]);
    }
  }

  /** A common prefix does not change the comparison: strings are ordered by their first difference. */
  lemma {:induction false} StrCompareCommonPrefix(p: string, a: string, b: string)
    ensures StrCompare(p + a, p + b) == StrCompare(a, b)
    decreases |p|
  {
    if p != [] {
      assert (p + a)[0] == p[0] && (p + a)[1..] == p[1..] + a;
      assert (p + b)[0] == p[0] && (p + b)[1..] == p[1..] + b;
      StrCompareCommonPrefix(p[1..], a, b);
    } else {
      assert p + a == a && p + b == b;
    }
  }

  /** "Sorts no later than" is transitive. */
  lemma {:induction false} StrCompareTransitive(a: string, b: string, c: string)
    requires StrCompare(a, b) <= 0 && StrCompare(b, c) <= 0
    ensures StrCompare(a, c) <= 0
    decreases |a|
  {
    if a != [] && b != [] && c != [] && a[0] == b[0] && b[0] == c[0] {
      StrCompareTransitive(a[1..], b[1..], c[1..]);
    }
  }

}
