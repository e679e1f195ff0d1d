/**
 The order of words: by the first entry in which they differ.
 */
module Words {

  /** Two words agree up to `n`; there one of them has ended, or their entries differ, as the order has it. */
  predicate FirstDiffers<T(==)>(a: seq<T>, b: seq<T>, before: (T, T) -> bool, shortFirst: bool, n: nat) {
    n <= |a| && n <= |b| && a[..n] == b[..n] &&
    if n == |a| || n == |b| then (if shortFirst then n < |b| else n < |a|)
    else before(a[n], b[n])
  }

  ghost predicate WordLess<T>(a: seq<T>, b: seq<T>, before: (T, T) -> bool, shortFirst: bool) {
    exists n: nat :: FirstDiffers(a, b, before, shortFirst, n)
  }

  lemma SameStart<T>(x: T, a: seq<T>, b: seq<T>, before: (T, T) -> bool, shortFirst: bool)
    requires !before(x, x)
    ensures WordLess([x] + a, [x] + b, before, shortFirst) <==> WordLess(a, b, before, shortFirst)
  {
    if n: nat :| FirstDiffers(a, b, before, shortFirst, n) {
      assert ([x] + a)[..n + 1] == [x] + a[..n] && ([x] + b)[..n + 1] == [x] + b[..n];
      assert FirstDiffers([x] + a, [x] + b, before, shortFirst, n + 1);
    }
    if n: nat :| FirstDiffers([x] + a, [x] + b, before, shortFirst, n) {
      assert ([x] + a)[..n] == [x] + a[..n - 1] && ([x] + b)[..n] == [x] + b[..n - 1];
      assert ([x] + a)[..n][1..] == a[..n - 1] && ([x] + b)[..n][1..] == b[..n - 1];
      assert FirstDiffers(a, b, before, shortFirst, n - 1);
    }
  }

  lemma AgreeBefore<T>(a: seq<T>, b: seq<T>, before: (T, T) -> bool, shortFirst: bool, n: nat)
    requires FirstDiffers(a, b, before, shortFirst, n)
    ensures n > 0 ==> a[0] == b[0]
  {
    if n > 0 {
      assert a[0] == a[..n][0] && b[0] == b[..n][0];
    }
  }

  lemma OtherStart<T>(a: seq<T>, b: seq<T>, before: (T, T) -> bool, shortFirst: bool)
    requires a != [] && b != [] && a[0] != b[0]
    ensures WordLess(a, b, before, shortFirst) <==> before(a[0], b[0])
  {
    if n: nat :| FirstDiffers(a, b, before, shortFirst, n) {
      AgreeBefore(a, b, before, shortFirst, n);
    }
    if before(a[0], b[0]) {
      assert FirstDiffers(a, b, before, shortFirst, 0);
    }
  }

  /** Against the empty word, all that counts is which of two words comes first if one begins with the other. */
  lemma EmptyWord<T>(a: seq<T>, b: seq<T>, before: (T, T) -> bool, shortFirst: bool)
    requires a == [] || b == []
    ensures WordLess(a, b, before, shortFirst) <==> if shortFirst then b != [] else a != []
  {
    assert FirstDiffers(a, b, before, shortFirst, 0) <==> if shortFirst then b != [] else a != [];
  }
}
