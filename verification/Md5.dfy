/** The MD5 context: buffering, counting and padding.  The compression function
    is a parameter. */
module Md5 {
  import opened Canonical
  import opened Arith
  import opened LittleEndian

  const U32: nat := 0x1_0000_0000

  // The four words of the scratch buffer.
  datatype State = State(a: nat, b: nat, c: nat, d: nat)

  type Transform = (State, seq<nat>) -> State

  const INIT: State := State(0x67452301, 0xefcdab89, 0x98badcfe, 0x10325476)

  // ---------- the algorithm of RFC 1321 ----------

  // A word, low-order byte first.
  function WordAt(s: seq<Byte>, i: nat): nat
    requires i + 4 <= |s|
  {
    LittleEndian.Word(s[i], s[i + 1], s[i + 2], s[i + 3])
  }

  function Words(s: seq<Byte>): (w: seq<nat>)
    requires |s| == 64
    ensures |w| == 16 && forall i :: 0 <= i < 16 ==> w[i] == WordAt(s, 4 * i)
  {
    seq(16, (i: nat) requires i < 16 => WordAt(s, 4 * i))
  }

  // Section 3.4: the blocks of a message one after the other.
  ghost function After(t: Transform, m: seq<Byte>, n: nat): State
    requires 64 * n <= |m|
  {
    if n == 0 then INIT else t(After(t, m, n - 1), Words(m[64 * (n - 1)..64 * n]))
  }

  // Section 3.1: a byte 0x80, then zeros up to 56 modulo 64, as few as possible.
  ghost function Padding(len: nat): (p: seq<Byte>)
    ensures |p| >= 1 && (len + |p|) % 64 == 56 && |p| <= 64
  {
    var zeros := (119 - len % 64) % 64;
    [0x80] + seq(zeros, (i: nat) => 0)
  }

  // Section 3.2: the number of bits, modulo 2^64.
  ghost function Length(n: nat): (p: seq<Byte>)
    ensures |p| == 8
  {
    Bytes(8 * n % UINT64_MOD, 8)
  }

  ghost function Padded(m: seq<Byte>): (p: seq<Byte>)
    ensures |p| % 64 == 0 && |p| >= 64
  {
    var n := |m| + |Padding(|m|)|;
    Place(n / 64 + 1, 0);
    m + Padding(|m|) + Length(|m|)
  }

  ghost function Digest(t: Transform, m: seq<Byte>): seq<Byte> {
    var s := After(t, Padded(m), |Padded(m)| / 64);
    Bytes(s.a, 4) + Bytes(s.b, 4) + Bytes(s.c, 4) + Bytes(s.d, 4)
  }

  lemma {:induction false} AfterPrefix(t: Transform, m: seq<Byte>, x: seq<Byte>, n: nat)
    requires 64 * n <= |m|
    ensures After(t, m + x, n) == After(t, m, n)
  {
    if n > 0 {
      AfterPrefix(t, m, x, n - 1);
      assert (m + x)[64 * (n - 1)..64 * n] == m[64 * (n - 1)..64 * n];
    }
  }

  // ---------- the context as a function of the message ----------

  // The buffer: every place holds the last byte that belongs there.
  ghost function Ring(start: seq<Byte>, m: seq<Byte>): (r: seq<Byte>)
    requires |start| == 64
    ensures |r| == 64
    decreases |m|
  {
    if m == [] then start
    else
      var n := |m| - 1;
      Ring(start, m[..n])[n % 64 := m[n]]
  }

  lemma {:induction false} RingHolds(start: seq<Byte>, m: seq<Byte>, j: nat)
    requires |start| == 64 && j < |m| <= j + 64
    ensures Ring(start, m)[j % 64] == m[j]
    decreases |m|
  {
    var n := |m| - 1;
    if j < n {
      RingHolds(start, m[..n], j);
    }
  }

  lemma RingAppend(start: seq<Byte>, m: seq<Byte>, b: Byte)
    requires |start| == 64
    ensures Ring(start, m + [b]) == Ring(start, m)[|m| % 64 := b]
  {
    var n := m + [b];
    assert n[..|m|] == m && n[|m|] == b;
  }

  lemma Place(q: nat, k: nat)
    requires k < 64
    ensures (64 * q + k) % 64 == k && (64 * q + k) / 64 == q
  {
  }

  // From its last multiple of 64 on, or from the one before, a message is in its place.
  lemma RingFrom(start: seq<Byte>, m: seq<Byte>, q: nat, n: nat)
    requires |start| == 64 && |m| == 64 * q + n && n <= 64
    ensures Ring(start, m)[..n] == m[64 * q..]
  {
    hide Ring;
    forall k: nat | k < n
      ensures Ring(start, m)[k] == m[64 * q + k]
    {
      RingHolds(start, m, 64 * q + k);
      Place(q, k);
    }
  }

  lemma {:induction false} AfterStep(t: Transform, m: seq<Byte>, b: Byte)
    requires (|m| + 1) % 64 == 0
    ensures var n := m + [b];
      After(t, n, |n| / 64) == t(After(t, m, |m| / 64), Words(n[|m| - 63..]))
  {
    var n, q := m + [b], |m| / 64;
    assert |n| == 64 * (q + 1);
    AfterPrefix(t, m, [b], q);
    assert n[64 * q..64 * (q + 1)] == n[|m| - 63..];
  }

  // ---------- the context in place ----------

  class Context {
    const transform: Transform
    const buffer: array<Byte>
    var i0: nat
    var i1: nat
    var buf: State
    ghost const start: seq<Byte>

    /** The context is the one that a message leaves, however it was split. */
    ghost predicate Holds(m: seq<Byte>)
      reads this, buffer
    {
      && buffer.Length == 64 && |start| == 64 && i0 < U32 && i1 < U32
      && i0 + U32 * i1 == 8 * |m| % UINT64_MOD
      && buffer[..] == Ring(start, m)
      && buf == After(transform, m, |m| / 64)
    }

    /** wvMD5Init. */
    constructor (transform: Transform)
      ensures Holds([]) && fresh(buffer) && this.transform == transform
    {
      this.transform := transform;
      i0, i1, buf := 0, 0, INIT;
      var b := new Byte[64];
      buffer, start := b, b[..];
    }

    // The first words in the buffer.
    method Decode(n: nat) returns (words: seq<nat>)
      requires buffer.Length == 64 && n <= 16
      ensures |words| == n && forall i :: 0 <= i < n ==> words[i] == WordAt(buffer[..], 4 * i)
    {
      words := [];
      for i := 0 to n
        invariant |words| == i && forall j :: 0 <= j < i ==> words[j] == WordAt(buffer[..], 4 * j)
      {
        words := words + [WordAt(buffer[..], 4 * i)];
      }
    }

    // One byte into the buffer, which is transformed when full.
    method Put(b: Byte, mdi: nat, ghost m: seq<Byte>) returns (next: nat)
      requires buffer.Length == 64 && |start| == 64 && mdi == |m| % 64
      requires buffer[..] == Ring(start, m) && buf == After(transform, m, |m| / 64)
      modifies `buf, buffer
      ensures next == (|m| + 1) % 64
      ensures buffer[..] == Ring(start, m + [b]) && buf == After(transform, m + [b], (|m| + 1) / 64)
    {
      hide Ring, After, Word;
      RingAppend(start, m, b);
      buffer[mdi] := b;
      next := mdi + 1;
      if next == 64 {
        var q := |m| / 64;
        assert |m| + 1 == 64 * q + 64;
        RingFrom(start, m + [b], q, 64);
        AfterStep(transform, m, b);
        var words := Decode(16);
        assert words == Words(buffer[..]);
        assert buffer[..][..64] == buffer[..];
        buf := transform(buf, words);
        next := 0;
      } else {
        AfterPrefix(transform, m, [b], |m| / 64);
      }
    }

    // The number of bits, in two words.
    method AddCount(len: nat, ghost bytes: nat)
      requires i0 < U32 && i1 < U32 && len < U32 && i0 + U32 * i1 == 8 * bytes % UINT64_MOD
      modifies `i0, `i1
      ensures i0 < U32 && i1 < U32 && i0 + U32 * i1 == 8 * (bytes + len) % UINT64_MOD
    {
      hide LowCount, HighCount;
      Count(i0, i1, bytes, len);
      if LowCount(i0, len) < i0 {
        i1 := (i1 + 1) % U32;
      }
      i0 := LowCount(i0, len);
      i1 := HighCount(i1, len);
    }

    method Absorb(inBuf: seq<Byte>, mdi: nat, ghost m: seq<Byte>)
      requires buffer.Length == 64 && |start| == 64 && mdi == |m| % 64
      requires buffer[..] == Ring(start, m) && buf == After(transform, m, |m| / 64)
      modifies `buf, buffer
      ensures buffer[..] == Ring(start, m + inBuf) && buf == After(transform, m + inBuf, |m + inBuf| / 64)
    {
      hide Ring, After;
      var at := mdi;
      ghost var seen := m;
      assert m + inBuf[..0] == m;
      for k := 0 to |inBuf|
        invariant seen == m + inBuf[..k] && at == |seen| % 64
        invariant buffer[..] == Ring(start, seen) && buf == After(transform, seen, |seen| / 64)
      {
        at := Put(inBuf[k], at, seen);
        assert m + inBuf[..k + 1] == m + inBuf[..k] + [inBuf[k]];
        seen := seen + [inBuf[k]];
      }
      assert inBuf[..|inBuf|] == inBuf;
    }

    /** wvMD5Update: the context of a message becomes that of the longer message. */
    method Update(inBuf: seq<Byte>, ghost m: seq<Byte>)
      requires Holds(m) && |inBuf| < U32
      modifies this, buffer
      ensures Holds(m + inBuf)
    {
      hide Ring, After;
      Position(i0, i1, |m|);
      var mdi: nat := i0 / 8 % 64;
      AddCount(|inBuf|, |m|);
      Absorb(inBuf, mdi, m);
    }

    /** wvMD5Final: the digest of RFC 1321 of the whole message. */
    method Final(ghost m: seq<Byte>) returns (digest: seq<Byte>)
      requires Holds(m)
      modifies this, buffer
      ensures digest == Digest(transform, m)
    {
      hide Ring, After, Padding, Length, Word, Bytes;
      var low, high := i0, i1;
      Position(i0, i1, |m|);
      var mdi: nat := i0 / 8 % 64;
      var padLen := if mdi < 56 then 56 - mdi else 120 - mdi;
      PaddingIs(|m|, padLen);
      Update(PADDING()[..padLen], m);
      ghost var padded := m + Padding(|m|);
      ghost var q := |padded| / 64;
      assert |padded| == 64 * q + 56;
      RingFrom(start, padded, q, 56);
      var words := Decode(14);
      LastBlock(m, q, buffer[..], words + [low, high]);
      LastStep(transform, m, q);
      buf := transform(buf, words + [low, high]);
      digest := Bytes(buf.a, 4) + Bytes(buf.b, 4) + Bytes(buf.c, 4) + Bytes(buf.d, 4);
    }
  }

  // The count after more bytes, as the two words compute it.
  function LowCount(i0: nat, len: nat): nat {
    (i0 + 8 * len % U32) % U32
  }

  function Carried(i0: nat, i1: nat, len: nat): nat {
    if LowCount(i0, len) < i0 then (i1 + 1) % U32 else i1
  }

  function HighCount(i1: nat, len: nat): nat {
    (i1 + len / 0x2000_0000) % U32
  }

  lemma Count(i0: nat, i1: nat, bytes: nat, len: nat)
    requires i0 < U32 && i1 < U32 && len < U32 && i0 + U32 * i1 == 8 * bytes % UINT64_MOD
    ensures LowCount(i0, len) < U32 && HighCount(Carried(i0, i1, len), len) < U32
    ensures LowCount(i0, len) + U32 * HighCount(Carried(i0, i1, len), len) == 8 * (bytes + len) % UINT64_MOD
  {
    hide LowCount, HighCount, Carried;
    CountWide(i0, i1, len);
    var wide := if LowCount(i0, len) < i0 then i1 + 1 + len / 0x2000_0000 else i1 + len / 0x2000_0000;
    LowAndHigh(LowCount(i0, len), wide);
    AddMod(8 * bytes, 8 * len);
  }

  // Without the wrap of the high word.
  lemma CountWide(i0: nat, i1: nat, len: nat)
    requires i0 < U32 && i1 < U32 && len < U32
    ensures var wide := if LowCount(i0, len) < i0 then i1 + 1 + len / 0x2000_0000 else i1 + len / 0x2000_0000;
      && i0 + U32 * i1 + 8 * len == LowCount(i0, len) + U32 * wide
      && HighCount(Carried(i0, i1, len), len) == wide % U32
    ensures LowCount(i0, len) < U32
  {
    var add := 8 * len % U32;
    TopBits(len);
  }

  lemma TopBits(len: nat)
    ensures 8 * len == U32 * (len / 0x2000_0000) + 8 * len % U32
  {
    var q, r := len / 0x2000_0000, len % 0x2000_0000;
    assert 8 * len == U32 * q + 8 * r;
  }

  lemma LowAndHigh(low: nat, wide: nat)
    requires low < U32
    ensures (low + U32 * wide) % UINT64_MOD == low + U32 * (wide % U32)
  {
    assert wide == U32 * (wide / U32) + wide % U32;
    assert low + U32 * wide == UINT64_MOD * (wide / U32) + (low + U32 * (wide % U32));
  }

  lemma AddMod(x: nat, y: nat)
    ensures (x + y) % UINT64_MOD == (x % UINT64_MOD + y) % UINT64_MOD
  {
  }

  lemma SameRest(x: nat, y: nat, m: nat)
    requires y == x + 64 * m
    ensures x % 64 == y % 64
  {
    DivUnique(y, x / 64 + m, x % 64, 64);
  }

  lemma Position(i0: nat, i1: nat, bytes: nat)
    requires i0 < U32 && i1 < U32 && i0 + U32 * i1 == 8 * bytes % UINT64_MOD
    ensures i0 / 8 % 64 == bytes % 64
  {
    var k := 8 * bytes / UINT64_MOD;
    var x := bytes - 0x2000_0000_0000_0000 * k - 0x2000_0000 * i1;
    assert i0 == 8 * x;
    SameRest(x, bytes, 0x80_0000_0000_0000 * k + 0x80_0000 * i1);
  }

  function PADDING(): (p: seq<Byte>)
    ensures |p| == 64
  {
    [0x80] + seq(63, (i: nat) => 0)
  }

  // The padding used is the one the standard asks for.
  lemma PaddingIs(n: nat, padLen: nat)
    requires padLen == if n % 64 < 56 then 56 - n % 64 else 120 - n % 64
    ensures padLen <= 64 && PADDING()[..padLen] == Padding(n)
  {
  }

  lemma LengthWords(n: nat, low: nat, high: nat)
    requires low < U32 && high < U32 && low + U32 * high == 8 * n % UINT64_MOD
    ensures WordAt(Length(n), 0) == low && WordAt(Length(n), 4) == high
  {
    var v := low + U32 * high;
    BytesWord(low, high);
  }

  lemma BytesWord(low: nat, high: nat)
    requires low < U32 && high < U32
    ensures WordAt(Bytes(low + U32 * high, 8), 0) == low && WordAt(Bytes(low + U32 * high, 8), 4) == high
  {
    hide WordAt, Bytes;
    var v := low + U32 * high;
    BytesAt(v);
    assert v / 0x1_0000_0000 == high && v % 0x1_0000_0000 == low;
  }

  lemma BytesAt(v: nat)
    ensures WordAt(Bytes(v, 8), 0) == v % U32 && WordAt(Bytes(v, 8), 4) == v / U32 % U32
  {
    BytesHead(v, 4);
    BytesHead(v / U32, 0);
  }

  // Four bytes in front.
  lemma BytesHead(v: nat, n: nat)
    ensures var s := Bytes(v, n + 4); WordAt(s, 0) == v % U32 && s[4..] == Bytes(v / U32, n)
  {
    var v1, v2, v3 := v / 0x100, v / 0x100 / 0x100, v / 0x100 / 0x100 / 0x100;
    assert Bytes(v, n + 4) == [v % 0x100] + Bytes(v1, n + 3);
    assert Bytes(v1, n + 3) == [v1 % 0x100] + Bytes(v2, n + 2);
    assert Bytes(v2, n + 2) == [v2 % 0x100] + Bytes(v3, n + 1);
    assert Bytes(v3, n + 1) == [v3 % 0x100] + Bytes(v3 / 0x100, n);
    assert v3 / 0x100 == v / U32;
  }

  // The last block: what is left of the padded message, and the length.
  lemma LastBlock(m: seq<Byte>, q: nat, b: seq<Byte>, words: seq<nat>)
    requires |b| == 64 && |words| == 16 && |m + Padding(|m|)| == 64 * q + 56
    requires b[..56] == (m + Padding(|m|))[64 * q..]
    requires forall i :: 0 <= i < 14 ==> words[i] == WordAt(b, 4 * i)
    requires words[14] < U32 && words[15] < U32 && words[14] + U32 * words[15] == 8 * |m| % UINT64_MOD
    ensures |Padded(m)| == 64 * (q + 1) && words == Words(Padded(m)[64 * q..])
  {
    hide Padding, Length;
    var last := Padded(m)[64 * q..];
    assert last == b[..56] + Length(|m|);
    LengthWords(|m|, words[14], words[15]);
    forall i | 0 <= i < 16
      ensures words[i] == WordAt(last, 4 * i)
    {
      if i == 14 {
        SameWord(last, 56, Length(|m|), 0);
      } else if i == 15 {
        SameWord(last, 60, Length(|m|), 4);
      } else {
        SameWord(last, 4 * i, b, 4 * i);
      }
    }
  }

  lemma SameWord(s: seq<Byte>, i: nat, t: seq<Byte>, j: nat)
    requires i + 4 <= |s| && j + 4 <= |t| && s[i..i + 4] == t[j..j + 4]
    ensures WordAt(s, i) == WordAt(t, j)
  {
    assert s[i..i + 4][0] == s[i] && s[i..i + 4][1] == s[i + 1];
    assert s[i..i + 4][2] == s[i + 2] && s[i..i + 4][3] == s[i + 3];
  }

  lemma LastStep(t: Transform, m: seq<Byte>, q: nat)
    requires |m + Padding(|m|)| == 64 * q + 56 && |Padded(m)| == 64 * (q + 1)
    ensures After(t, Padded(m), q + 1) == t(After(t, m + Padding(|m|), q), Words(Padded(m)[64 * q..]))
  {
    hide Padding, Length;
    AfterPrefix(t, m + Padding(|m|), Length(|m|), q);
    assert Padded(m)[64 * q..64 * (q + 1)] == Padded(m)[64 * q..];
  }

  /** However a message is split, the contexts are the same: two that hold the same
      message and started from the same memory agree in every field. */
  lemma SameContext(c: Context, d: Context, m: seq<Byte>)
    requires c.Holds(m) && d.Holds(m) && c.start == d.start && c.transform == d.transform
    ensures c.i0 == d.i0 && c.i1 == d.i1 && c.buf == d.buf && c.buffer[..] == d.buffer[..]
  {
    TwoWords(c.i0, c.i1, d.i0, d.i1);
  }

  lemma TwoWords(a0: nat, a1: nat, b0: nat, b1: nat)
    requires a0 < U32 && b0 < U32 && a0 + U32 * a1 == b0 + U32 * b1
    ensures a0 == b0 && a1 == b1
  {
  }

  /** The registers begin with the bytes that section 3.3 of RFC 1321 gives, low-order
      byte first. */
  lemma RegistersBegin()
    ensures Bytes(INIT.a, 4) == [0x01, 0x23, 0x45, 0x67] && Bytes(INIT.b, 4) == [0x89, 0xab, 0xcd, 0xef]
    ensures Bytes(INIT.c, 4) == [0xfe, 0xdc, 0xba, 0x98] && Bytes(INIT.d, 4) == [0x76, 0x54, 0x32, 0x10]
  {
    hide Bytes;
    BytesOf(INIT.a, 0x01, 0x23, 0x45, 0x67);
    BytesOf(INIT.b, 0x89, 0xab, 0xcd, 0xef);
    BytesOf(INIT.c, 0xfe, 0xdc, 0xba, 0x98);
    BytesOf(INIT.d, 0x76, 0x54, 0x32, 0x10);
  }

  /** The padded message: the message, a byte 0x80, as few zeros as fill it up to 56
      bytes modulo 64, and the number of bits modulo 2^64, low-order byte first. */
  lemma PaddedIs(m: seq<Byte>)
    ensures var p, n := Padded(m), |Padded(m)|;
      && n % 64 == 0 && |m| + 9 <= n <= |m| + 72
      && p[..|m|] == m && p[|m|] == 0x80 && (forall i :: |m| < i < n - 8 ==> p[i] == 0)
      && Value(p[n - 8..]) == 8 * |m| % 0x1_0000_0000_0000_0000
  {
    assert Padded(m)[|Padded(m)| - 8..] == Length(|m|);
    Value64(8 * |m| % UINT64_MOD);
  }

  /** The digest is the four registers in their order, low-order byte first: with a
      transformation that leaves them alone it is their initial bytes. */
  lemma DigestIs(t: Transform, m: seq<Byte>)
    requires forall s, w :: t(s, w) == s
    ensures Digest(t, m) ==
      [0x01, 0x23, 0x45, 0x67, 0x89, 0xab, 0xcd, 0xef, 0xfe, 0xdc, 0xba, 0x98, 0x76, 0x54, 0x32, 0x10]
  {
    hide Bytes, Padded;
    RegistersBegin();
    NothingAfter(t, Padded(m), |Padded(m)| / 64);
  }

  lemma {:induction false} NothingAfter(t: Transform, m: seq<Byte>, n: nat)
    requires 64 * n <= |m| && forall s, w :: t(s, w) == s
    ensures After(t, m, n) == INIT
  {
    if n > 0 {
      NothingAfter(t, m, n - 1);
    }
  }

  /** The first block is transformed first; word i of a block is its bytes from 4i on,
      low-order byte first. */
  lemma FirstBlock(t: Transform, m: seq<Byte>, i: nat)
    requires |m| >= 64 && i < 16
    ensures After(t, m, 1) == t(INIT, Words(m[..64]))
    ensures Words(m[..64])[i] == Value(m[4 * i..4 * i + 4])
  {
    assert After(t, m, 0) == INIT && m[0..64] == m[..64];
    var a, b, c, d := m[4 * i], m[4 * i + 1], m[4 * i + 2], m[4 * i + 3];
    WordIsValue(a, b, c, d);
    assert m[4 * i..4 * i + 4] == [a, b, c, d];
  }
}
