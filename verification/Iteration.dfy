/** Doing the same step over and over until nothing changes any more. */
module Iteration {

  function Iterate<C>(f: C -> C, c: C, n: nat): C {
    if n == 0 then c else f(Iterate(f, c, n - 1))
  }

  ghost predicate Leads<C(!new)>(f: C -> C, c: C, d: C) {
    exists n: nat :: Iterate(f, c, n) == d
  }

  lemma LeadsSelf<C(!new)>(f: C -> C, c: C)
    ensures Leads(f, c, c)
  {
    assert Iterate(f, c, 0) == c;
  }

  lemma LeadsOn<C(!new)>(f: C -> C, c: C, d: C)
    requires Leads(f, c, d)
    ensures Leads(f, c, f(d))
  {
    var n: nat :| Iterate(f, c, n) == d;
    assert Iterate(f, c, n + 1) == f(d);
  }

  lemma {:induction false} Stays<C(!new)>(f: C -> C, c: C, n: nat, k: nat)
    requires n <= k && f(Iterate(f, c, n)) == Iterate(f, c, n)
    ensures Iterate(f, c, k) == Iterate(f, c, n)
    decreases k
  {
    if n < k {
      Stays(f, c, n, k - 1);
    }
  }

  /** There is one place at most where steps come to rest. */
  lemma OneEnd<C(!new)>(f: C -> C, c: C, d: C, e: C)
    requires Leads(f, c, d) && Leads(f, c, e) && f(d) == d && f(e) == e
    ensures d == e
  {
    var n: nat :| Iterate(f, c, n) == d;
    var k: nat :| Iterate(f, c, k) == e;
    if n <= k {
      Stays(f, c, n, k);
    } else {
      Stays(f, c, k, n);
    }
  }
}
