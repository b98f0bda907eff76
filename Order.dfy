/**
 * The id order behind the merge and the causal comparison (`cmp_fun`,
 * src/utils/index.ts). `cmp_fun(a, b)` is a strict "greater than".
 * Ids of the engine are strings; numbers are kept here only for the
 * number/number and string/number branches of the comparator.
 */
module Order {

  /** A scalar id as the dynamically typed comparator sees it. */
  datatype Scalar = Str(s: string) | Num(n: int)

  /**
   * JavaScript's `a > b` on two strings: character by character, and a
   * proper prefix is smaller than the longer string. JavaScript compares
   * UTF-16 code units, which are these characters within the Basic
   * Multilingual Plane.
   */
  function StrGreater(a: string, b: string): bool
    decreases |a|
  {
    if |a| == 0 then false
    else if |b| == 0 then true
    else if a[0] != b[0] then a[0] > b[0]
    else StrGreater(a[1..], b[1..])
  }

  /** The comparator on scalars; a string and a number never compare greater. */
  function CmpFun(a: Scalar, b: Scalar): (r: bool)
    ensures a.Str? && b.Str? ==> (r <==> LexGreater(a.s, b.s))
    ensures a.Num? && b.Num? ==> (r <==> a.n > b.n)
    ensures a.Str? != b.Str? ==> !r
  {
    match (a, b)
    case (Str(x), Str(y)) =>
      StrGreaterIsLex(x, y);
      StrGreater(x, y)
    case (Num(x), Num(y)) => x > y
    case _ => false
  }

  /**
   * Lexicographic order stated directly: `a` and `b` share their first
   * `k` characters and then `b` ends while `a` goes on, or `a` has the
   * larger character at position `k`.
   */
  ghost predicate LexGreater(a: string, b: string)
  {
    exists k: nat :: k <= |a| && k <= |b| && a[..k] == b[..k] &&
      ((k == |b| && k < |a|) || (k < |b| && k < |a| && a[k] > b[k]))
  }

  lemma StrGreaterIsLex(a: string, b: string)
    ensures StrGreater(a, b) <==> LexGreater(a, b)
  {
    if StrGreater(a, b) {
      StrGreaterHasWitness(a, b);
    }
    if LexGreater(a, b) {
      var k: nat :| k <= |a| && k <= |b| && a[..k] == b[..k] &&
        ((k == |b| && k < |a|) || (k < |b| && k < |a| && a[k] > b[k]));
      WitnessGivesStrGreater(a, b, k);
    }
  }

  lemma {:induction false} StrGreaterHasWitness(a: string, b: string)
    requires StrGreater(a, b)
    ensures LexGreater(a, b)
    decreases |a|
  {
    if |b| == 0 || a[0] != b[0] {
      assert a[..0] == b[..0];
    } else {
      StrGreaterHasWitness(a[1..], b[1..]);
      var k: nat :| k <= |a[1..]| && k <= |b[1..]| && a[1..][..k] == b[1..][..k] &&
        ((k == |b[1..]| && k < |a[1..]|) || (k < |b[1..]| && k < |a[1..]| && a[1..][k] > b[1..][k]));
      assert a[..k + 1] == [a[0]] + a[1..][..k];
      assert b[..k + 1] == [b[0]] + b[1..][..k];
    }
  }

  lemma {:induction false} WitnessGivesStrGreater(a: string, b: string, k: nat)
    requires k <= |a| && k <= |b| && a[..k] == b[..k]
    requires (k == |b| && k < |a|) || (k < |b| && k < |a| && a[k] > b[k])
    ensures StrGreater(a, b)
    decreases k
  {
    if k > 0 {
      assert a[0] == a[..k][0] == b[..k][0] == b[0];
      assert a[1..][..k - 1] == a[..k][1..];
      assert b[1..][..k - 1] == b[..k][1..];
      WitnessGivesStrGreater(a[1..], b[1..], k - 1);
    }
  }

  lemma {:induction false} StrGreaterIrreflexive(a: string)
    ensures !StrGreater(a, a)
    decreases |a|
  {
    if |a| > 0 {
      StrGreaterIrreflexive(a[1..]);
    }
  }

  lemma {:induction false} StrGreaterAsymmetric(a: string, b: string)
    requires StrGreater(a, b)
    ensures !StrGreater(b, a)
    decreases |a|
  {
    if |a| > 0 && |b| > 0 && a[0] == b[0] {
      StrGreaterAsymmetric(a[1..], b[1..]);
    }
  }

  /** `a` and `b` are never each greater than the other. */
  lemma StrGreaterNotBoth(a: string, b: string)
    ensures !(StrGreater(a, b) && StrGreater(b, a))
  {
    if StrGreater(a, b) {
      StrGreaterAsymmetric(a, b);
    }
  }

  lemma {:induction false} StrGreaterTransitive(a: string, b: string, c: string)
    requires StrGreater(a, b) && StrGreater(b, c)
    ensures StrGreater(a, c)
    decreases |a|
  {
    if |c| > 0 && a[0] == b[0] && b[0] == c[0] {
      StrGreaterTransitive(a[1..], b[1..], c[1..]);
    }
  }

  lemma {:induction false} StrGreaterTrichotomous(a: string, b: string)
    ensures a == b || StrGreater(a, b) || StrGreater(b, a)
    decreases |a|
  {
    if |a| > 0 && |b| > 0 && a[0] == b[0] {
      assert a == [a[0]] + a[1..] && b == [b[0]] + b[1..];
      StrGreaterTrichotomous(a[1..], b[1..]);
    }
  }

  /** On strings, and on numbers, the comparator is a strict total order. */
  lemma CmpFunStrictTotalOrder(a: Scalar, b: Scalar, c: Scalar)
    requires (a.Str? && b.Str? && c.Str?) || (a.Num? && b.Num? && c.Num?)
    ensures !CmpFun(a, a)
    ensures CmpFun(a, b) ==> !CmpFun(b, a)
    ensures CmpFun(a, b) && CmpFun(b, c) ==> CmpFun(a, c)
    ensures a != b ==> CmpFun(a, b) || CmpFun(b, a)
  {
    if a.Str? {
      StrGreaterIrreflexive(a.s);
      if StrGreater(a.s, b.s) { StrGreaterAsymmetric(a.s, b.s); }
      if StrGreater(a.s, b.s) && StrGreater(b.s, c.s) { StrGreaterTransitive(a.s, b.s, c.s); }
      StrGreaterTrichotomous(a.s, b.s);
    }
  }
}
