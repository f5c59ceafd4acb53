/** Numbers as bytes, low-order byte first. */
module LittleEndian {
  import opened Canonical

  function Bytes(v: nat, n: nat): (s: seq<Byte>)
    ensures |s| == n
  {
    if n == 0 then [] else [v % 0x100] + Bytes(v / 0x100, n - 1)
  }

  function Value(s: seq<Byte>): nat
    decreases |s|
  {
    if s == [] then 0 else s[0] + 0x100 * Value(s[1..])
  }

  // A number of 32 bits.
  function Word(a: Byte, b: Byte, c: Byte, d: Byte): (v: nat)
    ensures v < 0x1_0000_0000
  {
    a + 0x100 * (b + 0x100 * (c + 0x100 * d))
  }

  lemma WordIs(a: Byte, b: Byte, c: Byte, d: Byte)
    ensures Word(a, b, c, d) == a + 256 * b + 65536 * c + 16777216 * d
  {
  }

  lemma WordIsValue(a: Byte, b: Byte, c: Byte, d: Byte)
    ensures Word(a, b, c, d) == Value([a, b, c, d])
  {
    var s3: seq<Byte>, s2: seq<Byte>, s1: seq<Byte> := [b, c, d], [c, d], [d];
    assert [a, b, c, d][1..] == s3 && s3[1..] == s2 && s2[1..] == s1 && s1[1..] == [];
    assert Value([]) == 0;
    assert Value(s1) == d;
    assert Value(s2) == c + 0x100 * Value(s1);
    assert Value(s3) == b + 0x100 * Value(s2);
  }

  lemma FourBytes(v: nat)
    ensures var q, r := v / 0x100, v / 0x100 / 0x100;
      Bytes(v, 4) == [v % 0x100, q % 0x100, r % 0x100, r / 0x100 % 0x100]
  {
    var q, r := v / 0x100, v / 0x100 / 0x100;
    assert Bytes(r / 0x100, 1) == [r / 0x100 % 0x100];
    assert Bytes(r, 2) == [r % 0x100, r / 0x100 % 0x100];
    assert Bytes(q, 3) == [q % 0x100, r % 0x100, r / 0x100 % 0x100];
  }

  // A given number.
  lemma BytesOf(v: nat, a: Byte, b: Byte, c: Byte, d: Byte)
    requires v == a + 256 * b + 65536 * c + 16777216 * d
    ensures Bytes(v, 4) == [a, b, c, d]
  {
    var q, r := v / 0x100, v / 0x100 / 0x100;
    assert q == b + 256 * c + 65536 * d && r == c + 256 * d && r / 0x100 == d;
    FourBytes(v);
  }

  function Power(n: nat): (p: nat)
    ensures p >= 1
  {
    if n == 0 then 1 else 0x100 * Power(n - 1)
  }

  lemma {:induction false} ValueOfBytes(v: nat, n: nat)
    requires v < Power(n)
    ensures Value(Bytes(v, n)) == v
  {
    if n > 0 {
      ValueOfBytes(v / 0x100, n - 1);
    }
  }

  /** A number of 32 bits comes back from its four bytes. */
  lemma Value32(v: nat)
    requires v < 0x1_0000_0000
    ensures Value(Bytes(v, 4)) == v
  {
    assert Power(4) == 0x1_0000_0000;
    ValueOfBytes(v, 4);
  }

  lemma Value64(v: nat)
    requires v < 0x1_0000_0000_0000_0000
    ensures Value(Bytes(v, 8)) == v
  {
    assert Power(8) == 0x1_0000_0000_0000_0000;
    ValueOfBytes(v, 8);
  }
}
