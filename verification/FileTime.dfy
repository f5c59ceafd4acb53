/** FILETIME to Unix time in limbs of 16 and 32 bits. */
module FileTime {
  import opened Arith

  const B16: nat := 0x1_0000
  const B32: nat := 0x1_0000_0000

  // The start of Unix time, and a second, in units of a FILETIME.
  const EPOCH: nat := 116444736000000000
  const SECOND: nat := 10000000

  // A 64-bit pattern as a signed number.
  function Signed64(v: int): (s: int)
    ensures -0x8000_0000_0000_0000 <= s < 0x8000_0000_0000_0000
  {
    var u := v % UINT64_MOD;
    if u < 0x8000_0000_0000_0000 then u else u - UINT64_MOD
  }

  // Three limbs: the high 32 bits, and twice 16 bits.
  datatype Limbs = Limbs(a2: nat, a1: nat, a0: nat) {
    predicate Valid() {
      a2 < B32 && a1 < B16 && a0 < B16
    }

    function Value(): nat {
      a2 * B32 + a1 * B16 + a0
    }

    predicate Negative() {
      a2 >= 0x8000_0000
    }

    // Minus the number, minus one.
    function Complement(): (c: Limbs)
      requires Valid()
      ensures c.Valid() && c.Value() == UINT64_MOD - 1 - Value()
    {
      Limbs(B32 - 1 - a2, 0xFFFF - a1, 0xFFFF - a0)
    }
  }

  lemma SignedNegative(a: Limbs)
    requires a.Valid()
    ensures Signed64(a.Value()) == if a.Negative() then -1 - a.Complement().Value() else a.Value()
  {
  }

  // The difference, modulo 2^64, by limbs with a carry.
  method Subtract(high: nat, low: nat) returns (a: Limbs)
    requires high < B32 && low < B32
    ensures a.Valid() && a.Value() == (high * B32 + low - EPOCH) % UINT64_MOD
  {
    var a2, a1, a0 := high, low / B16, low % B16;
    var carry := 0;
    if a0 >= 32768 {
      a0, carry := a0 - 32768, 0;
    } else {
      a0, carry := a0 + (B16 - 32768), 1;
    }
    if a1 >= 54590 + carry {
      a1, carry := a1 - (54590 + carry), 0;
    } else {
      a1, carry := a1 + (B16 - 54590 - carry), 1;
    }
    ghost var wide: int := a2 - (27111902 + carry);
    a2 := (a2 - (27111902 + carry)) % B32;
    a := Limbs(a2, a1, a0);
    assert wide * B32 + a1 * B16 + a0 == high * B32 + low - EPOCH;
  }

  lemma LongDivision(a: Limbs, d: nat, q2: nat, m2: nat, q1: nat, m1: nat, q0: nat, r: nat)
    requires a.a2 == d * q2 + m2 && m2 * B16 + a.a1 == d * q1 + m1 && m1 * B16 + a.a0 == d * q0 + r
    ensures a.Value() == d * (q2 * B32 + q1 * B16 + q0) + r
  {
    assert d * (q2 * B32 + q1 * B16 + q0) == (d * q2) * B32 + (d * q1) * B16 + d * q0;
  }

  // Quotient and remainder of a limb with the remainder carried from the one
  // above: 32 bits are enough for it, and 16 for the quotient.
  method DivideLimb(carried: nat, limb: nat, d: nat) returns (q: nat, r: nat)
    requires carried < d < B16 && limb < B16
    ensures carried * B16 + limb == d * q + r && r < d && q < B16
    ensures carried * B16 + limb < B32
  {
    var x: nat := limb + carried * B16;
    q, r := x / d, x % d;
    ghost var e := q - B16;
    assert e * d == d * q - d * B16;
    if q >= B16 {
      MulNonNegative(e, d);
    }
  }

  method DivideTop(x: nat, d: nat) returns (q: nat, r: nat)
    requires 0 < d
    ensures x == d * q + r && r < d && q <= x
  {
    q, r := x / d, x % d;
    if q >= 1 {
      MulAtLeast(d, q);
    }
  }

  /** One division by a divisor of 16 bits, limb by limb. */
  method Divide(a: Limbs, d: nat) returns (q: Limbs, r: nat)
    requires a.Valid() && 0 < d < B16
    ensures q.Valid() && r < d && a.Value() == d * q.Value() + r && q.a2 <= a.a2
  {
    var a2, m2 := DivideTop(a.a2, d);
    var a1, m1 := DivideLimb(m2, a.a1, d);
    var a0;
    a0, r := DivideLimb(m1, a.a0, d);
    q := Limbs(a2, a1, a0);
    LongDivision(a, d, a2, m2, a1, m1, a0, r);
  }

  /** wvDOSFS_FileTimeToUnixTime, with a time_t of 64 bits: seconds since 1970,
      rounded down, and the part of a second that remains. */
  method FileTimeToUnixTime(high: nat, low: nat) returns (time: int, remainder: nat)
    requires high < B32 && low < B32
    ensures var s := Signed64(high * B32 + low - EPOCH);
      time == s / SECOND && remainder == s % SECOND
  {
    var a := Subtract(high, low);
    SignedNegative(a);
    var negative := a.Negative();
    if negative {
      a := a.Complement();
    }
    var q1, r1 := Divide(a, 10000);
    var q, r2 := Divide(q1, 1000);
    var r := r1 + r2 * 10000;
    ghost var s: int := Signed64(high * B32 + low - EPOCH);
    assert a.Value() == SECOND * q.Value() + r;
    SignedNegative(q);
    if negative {
      SignedNegative(q.Complement());
      q := q.Complement();
      r := 9999999 - r;
    }
    remainder := r;
    time := Signed64(q.Value());
    assert s == time * SECOND + r;
    DivUnique(s, time, r, SECOND);
  }

  /** Unix time begins 134774 days after the first of January 1601, where a FILETIME of
      100 nanoseconds begins: 369 years, 89 of them leap years. */
  lemma EpochIs()
    ensures SECOND * 100 == 1000000000
    ensures EPOCH == (369 * 365 + 89) * 24 * 60 * 60 * SECOND
  {
  }
}
