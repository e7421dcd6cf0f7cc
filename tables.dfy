/**
 * A table is a sequence of rows. Every derived query of the repositories is a
 * selection of the rows that satisfy a condition, kept in table order.
 */
module Tables {

  /** The rows of `s` that satisfy `p`, in the order they appear in `s`. */
  function Select<T(!new)>(s: seq<T>, p: T -> bool): (r: seq<T>)
    ensures |r| <= |s|
    ensures forall x :: x in r <==> x in s && p(x)
  {
    if s == [] then []
    else if p(s[0]) then [s[0]] + Select(s[1..], p)
    else Select(s[1..], p)
  }

  /** Selecting from a concatenation selects from each part. */
  lemma {:induction false} SelectAppend<T(!new)>(a: seq<T>, b: seq<T>, p: T -> bool)
    ensures Select(a + b, p) == Select(a, p) + Select(b, p)
  {
    if a == [] {
      assert a + b == b;
    } else {
      assert (a + b)[1..] == a[1..] + b;
      SelectAppend(a[1..], b, p);
    }
  }

  /** Selecting by `p` and then by `q` is selecting once by their conjunction `pq`. */
  lemma {:induction false} SelectThen<T(!new)>(s: seq<T>, p: T -> bool, q: T -> bool, pq: T -> bool)
    requires forall x :: pq(x) == (p(x) && q(x))
    ensures Select(Select(s, p), q) == Select(s, pq)
  {
    if s != [] {
      SelectThen(s[1..], p, q, pq);
    }
  }

  /** Two selections may be applied in either order. */
  lemma {:induction false} SelectCommutes<T(!new)>(s: seq<T>, p: T -> bool, q: T -> bool)
    ensures Select(Select(s, p), q) == Select(Select(s, q), p)
  {
    if s != [] {
      SelectCommutes(s[1..], p, q);
    }
  }
}
