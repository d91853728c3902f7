/** The JavaScript array operations the inherit-doc pass relies on. */
module Arrays {

  /** No element occurs twice. */
  predicate NoDup<T(==)>(s: seq<T>)
  {
    forall p, q :: 0 <= p < q < |s| ==> s[p] != s[q]
  }

  /** `s.indexOf(x)`: the position of the first occurrence of `x` in `s`, or -1. */
  function IndexOf<T(==)>(s: seq<T>, x: T): (i: int)
    ensures -1 <= i < |s|
    ensures i == -1 <==> x !in s
    ensures 0 <= i ==> s[i] == x && x !in s[..i]
  {
    if |s| == 0 then -1
    else if s[0] == x then 0
    else
      var j := IndexOf(s[1..], x);
      if j == -1 then -1
      else
        assert s[..j + 1] == [s[0]] + s[1..][..j];
        j + 1
  }

  /** In a sequence without duplicates, `indexOf` finds every element at its own position. */
  lemma IndexOfDistinct<T>(s: seq<T>, k: nat)
    requires NoDup(s) && k < |s|
    ensures IndexOf(s, s[k]) == k
  {
    IndexOfFirst(s, s[k], k);
  }

  /** `indexOf` never reports a position after an occurrence of `x`. */
  lemma {:induction false} IndexOfFirst<T>(s: seq<T>, x: T, k: nat)
    requires k < |s| && s[k] == x
    ensures 0 <= IndexOf(s, x) <= k
  {
    if s[0] != x {
      IndexOfFirst(s[1..], x, k - 1);
    }
  }

  /** An occurrence of `x` at `k` bounds `indexOf` from above. */
  lemma IndexOfAtMost<T>(s: seq<T>, x: T, k: nat)
    requires k < |s|
    ensures s[k] == x ==> 0 <= IndexOf(s, x) <= k
  {
    if s[k] == x {
      IndexOfFirst(s, x, k);
    }
  }

  /** Concatenating two duplicate-free sequences with no common element keeps them duplicate-free. */
  lemma NoDupConcat<T>(a: seq<T>, b: seq<T>)
    requires NoDup(a) && NoDup(b)
    requires forall x :: x in a ==> x !in b
    ensures NoDup(a + b)
  {
    forall p, q | 0 <= p < q < |a + b|
      ensures (a + b)[p] != (a + b)[q]
    {
      if p < |a| && |a| <= q {
        assert (a + b)[p] in a && (a + b)[q] in b;
      }
    }
  }
}
