/** The list comprehension `[x for x in xs if p(x)]`, which the source uses
    to collect the invalid area names and which the frame's row filter
    performs on the dataset. */
module Seqs {

  function Keep<T(!new)>(xs: seq<T>, p: T -> bool): (r: seq<T>)
    ensures |r| <= |xs|
    ensures forall x :: x in r <==> x in xs && p(x)
  {
    if xs == [] then []
    else (if p(xs[0]) then [xs[0]] else []) + Keep(xs[1..], p)
  }

  /** Keeping distributes over concatenation: the kept items stay in input order. */
  lemma {:induction false} KeepConcat<T(!new)>(a: seq<T>, b: seq<T>, p: T -> bool)
    ensures Keep(a + b, p) == Keep(a, p) + Keep(b, p)
  {
    if a == [] {
      assert a + b == b;
    } else {
      assert (a + b)[1..] == a[1..] + b;
      KeepConcat(a[1..], b, p);
    }
  }

  /** Every kept item is kept as often as it occurs: duplicates survive. */
  lemma {:induction false} KeepCount<T(!new)>(xs: seq<T>, p: T -> bool, x: T)
    ensures multiset(Keep(xs, p))[x] == if p(x) then multiset(xs)[x] else 0
  {
    if xs != [] {
      KeepCount(xs[1..], p, x);
      assert xs == [xs[0]] + xs[1..];
    }
  }

  /** Everything passes: nothing is dropped. */
  lemma {:induction false} KeepAll<T(!new)>(xs: seq<T>, p: T -> bool)
    ensures (forall x :: x in xs ==> p(x)) ==> Keep(xs, p) == xs
  {
    if xs != [] {
      KeepAll(xs[1..], p);
      assert xs == [xs[0]] + xs[1..];
    }
  }

  /** Nothing passes: the result is empty. */
  lemma KeepNone<T(!new)>(xs: seq<T>, p: T -> bool)
    requires forall x :: x in xs ==> !p(x)
    ensures Keep(xs, p) == []
  {
  }

  /** Two filters applied one after the other keep what their conjunction keeps. */
  lemma {:induction false} KeepKeep<T(!new)>(xs: seq<T>, p: T -> bool, q: T -> bool, both: T -> bool)
    ensures (forall x :: both(x) == (p(x) && q(x))) ==> Keep(Keep(xs, p), q) == Keep(xs, both)
  {
    if xs != [] && forall x :: both(x) == (p(x) && q(x)) {
      KeepKeep(xs[1..], p, q, both);
      var head := if p(xs[0]) then [xs[0]] else [];
      KeepConcat(head, Keep(xs[1..], p), q);
      if p(xs[0]) {
        assert Keep(head, q) == Keep([], q) + (if q(xs[0]) then [xs[0]] else []) by {
          assert head[1..] == [];
        }
      }
    }
  }
}
