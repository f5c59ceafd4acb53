/** How many overflow nodes a run of canonical codes takes: each codeword needs
    one node for every depth at which it opens a new subtree. */
module NodeCount {
  import opened Shifts
  import opened Canonical

  // Trailing zero bits of r, at most cap.
  function Zeros(r: nat, cap: nat): (z: nat)
    ensures z <= cap
    decreases cap
  {
    if cap == 0 || r % 2 == 1 then 0 else 1 + Zeros(r / 2, cap - 1)
  }

  // One bits among the low j bits of r: the subtrees a boundary that lies r
  // windows before the end leaves open.
  function Ones(r: nat, j: nat): (k: nat)
    ensures k <= j
    decreases j
  {
    if j == 0 then 0 else r % 2 + Ones(r / 2, j - 1)
  }

  predicate Aligned(w: nat, c: nat) {
    Shl(Shr(w, c), c) == w
  }

  lemma AlignedShl(m: nat, c: nat, w: nat)
    requires w == Shl(m, c)
    ensures Aligned(w, c)
  {
    ShrShl(m, c);
  }

  lemma AlignedWeaker(w: nat, c: nat, b: nat)
    requires Aligned(w, c) && b <= c
    ensures Aligned(w, b)
  {
    ShlTwice(Shr(w, c), c - b, b);
    AlignedShl(Shl(Shr(w, c), c - b), b, w);
  }

  lemma AlignedRest(w: nat, c: nat)
    requires w <= FULL && c <= 16
    ensures Aligned(w, c) <==> Aligned(FULL - w, c)
  {
    if Aligned(w, c) {
      AlignedDiff(w, c);
    }
    if Aligned(FULL - w, c) {
      AlignedDiff(FULL - w, c);
    }
  }

  lemma AlignedDiff(w: nat, c: nat)
    requires w <= FULL && c <= 16 && Aligned(w, c)
    ensures Aligned(FULL - w, c)
  {
    var m, all := Shr(w, c), Shl(1, 16 - c);
    ShlTwice(1, 16 - c, c);
    FullIsShl();
    if m > all {
      ShlAdd(all, m - all, c);
      ShlPositive(m - all, c);
    }
    ShlAdd(m, all - m, c);
    AlignedShl(all - m, c, FULL - w);
  }

  lemma {:induction false} ShlDouble(m: nat, c: nat)
    ensures Shl(2 * m, c) == 2 * Shl(m, c)
  {
    ShlAdd(m, m, c);
  }

  lemma {:induction false} ZerosIff(r: nat, c: nat, cap: nat)
    requires c <= cap
    ensures c <= Zeros(r, cap) <==> Aligned(r, c)
    decreases c
  {
    if c > 0 {
      ZerosIff(r / 2, c - 1, cap - 1);
      ShrTwice(r, 1, c - 1);
      assert Shr(r, 1) == r / 2;
      ShlDouble(Shr(r, c), c - 1);
    }
  }

  // Taking the first 2^k windows off a rest of r = m*2^k windows.
  // The subtrees that a boundary r windows before the end leaves open: one below each
  // direct entry that has not been reached, and those inside the entry it lies in.
  function Open(r: nat, j: nat): nat {
    Ones(r, j) + Shr(r, j)
  }

  lemma OpenHalf(r: nat, j: nat)
    requires 0 < j
    ensures Open(r, j) == r % 2 + Open(r / 2, j - 1)
  {
    ShrTwice(r, 1, j - 1);
    assert Shr(r, 1) == r / 2;
  }

  // A codeword opens a node for every level at which its boundary was aligned.
  lemma {:induction false} OpenStep(r: nat, m: nat, k: nat, j: nat)
    requires k <= j && 0 < m && r == Shl(m, k)
    ensures Shl(1, k) <= r && k <= Zeros(r, j)
    ensures Open(r - Shl(1, k), j) + 1 == Open(r, j) + Zeros(r, j) - k
    decreases j
  {
    hide Open;
    ShlMono(1, m, k);
    AlignedShl(m, k, r);
    ZerosIff(r, k, j);
    if j == 0 {
      OpenNone(r);
      OpenNone(r - 1);
    } else {
      OpenHalf(r, j);
      OpenHalf(r - Shl(1, k), j);
      if k == 0 {
        if r % 2 == 0 {
          OpenStep(r / 2, r / 2, 0, j - 1);
          assert (r - 1) / 2 == r / 2 - 1;
        } else {
          assert (r - 1) / 2 == r / 2;
        }
      } else {
        ShlDouble(m, k - 1);
        ShlDouble(1, k - 1);
        OpenStep(r / 2, m, k - 1, j - 1);
        assert (r - Shl(1, k)) / 2 == r / 2 - Shl(1, k - 1);
      }
    }
  }

  lemma OpenNone(r: nat)
    ensures Open(r, 0) == r
  {
  }
}
