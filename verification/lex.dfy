/**
 * Python's ordering of `str` values: symbols are compared code point by code
 * point and a proper prefix sorts before the longer string.  Every `sorted`
 * and every `<` on strings in the repository uses this order.
 */
module Lex {

  predicate LexLe(a: string, b: string)
    decreases |a|
  {
    |a| == 0 || (|b| > 0 && (a[0] < b[0] || (a[0] == b[0] && LexLe(a[1..], b[1..]))))
  }

  predicate LexLt(a: string, b: string)
  {
    LexLe(a, b) && a != b
  }

  lemma {:induction false} LexLeReflexive(a: string)
    ensures LexLe(a, a)
  {
    if |a| > 0 {
      LexLeReflexive(a[1..]);
    }
  }

  lemma {:induction false} LexLeAntisymmetric(a: string, b: string)
    requires LexLe(a, b) && LexLe(b, a)
    ensures a == b
  {
    if |a| > 0 && |b| > 0 {
      LexLeAntisymmetric(a[1..], b[1..]);
      assert a == [a[0]] + a[1..] && b == [b[0]] + b[1..];
    }
  }

  lemma {:induction false} LexLeTransitive(a: string, b: string, c: string)
    requires LexLe(a, b) && LexLe(b, c)
    ensures LexLe(a, c)
  {
    if |a| > 0 && |b| > 0 && |c| > 0 && a[0] == b[0] == c[0] {
      LexLeTransitive(a[1..], b[1..], c[1..]);
    }
  }

  lemma {:induction false} LexLeTotal(a: string, b: string)
    ensures LexLe(a, b) || LexLe(b, a)
  {
    if |a| > 0 && |b| > 0 && a[0] == b[0] {
      LexLeTotal(a[1..], b[1..]);
    }
  }

  /** Strict comparison of two strings that start with one symbol each. */
  lemma LexLtCons(x: char, xs: string, y: char, ys: string)
    ensures LexLt([x] + xs, [y] + ys) <==> x < y || (x == y && LexLt(xs, ys))
  {
    assert ([x] + xs)[1..] == xs && ([y] + ys)[1..] == ys;
  }

  /** The empty string is below everything; a non-empty string is above it. */
  lemma LexLtEmpty(b: string)
    ensures LexLe([], b)
    ensures |b| > 0 ==> LexLt([], b) && !LexLe(b, [])
  {
  }

  lemma LexNotLe(a: string, b: string)
    requires !LexLe(a, b)
    ensures LexLt(b, a)
  {
    LexLeTotal(a, b);
  }

  lemma LexLtTransitive(a: string, b: string, c: string)
    requires (LexLe(a, b) && LexLt(b, c)) || (LexLt(a, b) && LexLe(b, c))
    ensures LexLt(a, c)
  {
    LexLeTransitive(a, b, c);
    if a == c {
      LexLeAntisymmetric(a, b);
    }
  }

  /** `a` is a prefix of `b`. */
  predicate IsPrefix(a: string, b: string)
  {
    |a| <= |b| && b[..|a|] == a
  }

  /**
   * When `a` sorts below `b` at a differing position (not as a prefix),
   * whatever follows either string does not change the order.
   */
  lemma {:induction false} LexLtExtend(a: string, b: string, x: string, y: string)
    requires LexLt(a, b) && !IsPrefix(a, b)
    ensures LexLt(a + x, b + y)
  {
    assert |a| > 0 && |b| > 0;
    assert (a + x)[0] == a[0] && (b + y)[0] == b[0];
    assert a + x == [a[0]] + (a[1..] + x);
    assert b + y == [b[0]] + (b[1..] + y);
    if a[0] == b[0] {
      assert a == [a[0]] + a[1..] && b == [b[0]] + b[1..];
      LexLtExtend(a[1..], b[1..], x, y);
    }
    LexLtCons(a[0], a[1..] + x, b[0], b[1..] + y);
  }
}
