/** The C shift operators on unsigned values that do not overflow, and the
    laws that tie them together. */
module Shifts {

  function Shl(x: nat, n: nat): nat
    decreases n
  {
    if n == 0 then x else Shl(2 * x, n - 1)
  }

  function Shr(x: nat, n: nat): nat {
    if n == 0 then x else Shr(x, n - 1) / 2
  }

  // Shifting left and shifting right form a Galois connection.
  lemma {:induction false} Galois(v: nat, w: nat, n: nat)
    ensures Shl(v, n) <= w <==> v <= Shr(w, n)
    decreases n
  {
    if n != 0 {
      Galois(2 * v, w, n - 1);
    }
  }

  lemma {:induction false} ShlAdd(x: nat, y: nat, n: nat)
    ensures Shl(x + y, n) == Shl(x, n) + Shl(y, n)
    decreases n
  {
    if n != 0 {
      ShlAdd(2 * x, 2 * y, n - 1);
    }
  }

  lemma {:induction false} ShlZero(n: nat)
    ensures Shl(0, n) == 0
  {
    if n != 0 {
      ShlZero(n - 1);
    }
  }

  lemma ShlMono(x: nat, y: nat, n: nat)
    requires x <= y
    ensures Shl(x, n) <= Shl(y, n)
  {
    ShlAdd(x, y - x, n);
  }

  lemma {:induction false} ShlPositive(x: nat, n: nat)
    requires 0 < x
    ensures x <= Shl(x, n)
    decreases n
  {
    if n != 0 {
      ShlPositive(2 * x, n - 1);
    }
  }

  lemma {:induction false} ShlTwice(x: nat, a: nat, b: nat)
    ensures Shl(Shl(x, a), b) == Shl(x, a + b)
    decreases a
  {
    if a != 0 {
      ShlTwice(2 * x, a - 1, b);
    }
  }

  lemma {:induction false} ShrTwice(x: nat, a: nat, b: nat)
    ensures Shr(Shr(x, a), b) == Shr(x, a + b)
  {
    if b != 0 {
      ShrTwice(x, a, b - 1);
    }
  }

  // A right shift drops exactly what a left shift of the result misses.
  lemma ShrBounds(x: nat, n: nat)
    ensures Shl(Shr(x, n), n) <= x < Shl(Shr(x, n) + 1, n)
  {
    Galois(Shr(x, n), x, n);
    Galois(Shr(x, n) + 1, x, n);
  }

  lemma ShrUnique(v: nat, x: nat, n: nat)
    requires Shl(v, n) <= x < Shl(v, n) + Shl(1, n)
    ensures Shr(x, n) == v
  {
    ShlAdd(v, 1, n);
    Galois(v, x, n);
    Galois(v + 1, x, n);
  }

  lemma ShrShl(x: nat, n: nat)
    ensures Shr(Shl(x, n), n) == x
  {
    ShlPositive(1, n);
    ShrUnique(x, Shl(x, n), n);
  }

  // A value shifted left by a and then right by b > a loses b - a bits.
  lemma ShrOfShl(x: nat, a: nat, b: nat)
    requires a <= b
    ensures Shr(Shl(x, a), b) == Shr(x, b - a)
  {
    ShrTwice(Shl(x, a), a, b - a);
    ShrShl(x, a);
  }

  lemma Double(n: nat, x: nat)
    ensures Shl(x, n + 1) == 2 * Shl(x, n)
  {
    ShlTwice(x, n, 1);
    assert Shl(Shl(x, n), 1) == Shl(2 * Shl(x, n), 0);
  }

  lemma Powers()
    ensures Shl(1, 0) == 1 && Shl(1, 1) == 2 && Shl(1, 2) == 4 && Shl(1, 3) == 8 && Shl(1, 4) == 16
    ensures Shl(1, 5) == 32 && Shl(1, 6) == 64 && Shl(1, 7) == 128 && Shl(1, 8) == 256 && Shl(1, 9) == 512
    ensures Shl(1, 10) == 1024 && Shl(1, 11) == 2048 && Shl(1, 12) == 4096 && Shl(1, 13) == 8192
    ensures Shl(1, 14) == 16384 && Shl(1, 15) == 32768 && Shl(1, 16) == 65536 && Shl(1, 17) == 131072
  {
    Double(0, 1);
    Double(1, 1);
    Double(2, 1);
    Double(3, 1);
    Double(4, 1);
    Double(5, 1);
    Double(6, 1);
    Double(7, 1);
    Double(8, 1);
    Double(9, 1);
    Double(10, 1);
    Double(11, 1);
    Double(12, 1);
    Double(13, 1);
    Double(14, 1);
    Double(15, 1);
    Double(16, 1);
  }
}
