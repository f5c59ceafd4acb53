/** The x86 call translation of LZX: operands of the E8 opcode are changed
    between relative and absolute form, in place, over each output block. */
module E8 {
  import opened Canonical
  import opened LittleEndian

  const E8_LEADER: Byte := 0xE8
  const INT32_MIN: int := -0x8000_0000
  const INT32_LIM: int := 0x8000_0000
  const UINT32_MOD: int := 0x1_0000_0000

  datatype Direction = Decode | Encode

  // Four bytes, least significant first, as a signed 32-bit number.
  function Signed(a: Byte, b: Byte, c: Byte, d: Byte): (v: int)
    ensures INT32_MIN <= v < INT32_LIM
  {
    var u := Word(a, b, c, d);
    if u >= INT32_LIM then u - UINT32_MOD else u
  }

  // The four bytes of a 32-bit number in two's complement.
  function Stored(v: int): (s: seq<Byte>)
    ensures |s| == 4
    ensures var u := v % UINT32_MOD;
      var q := u / 0x100;
      var r := q / 0x100;
      s == [u % 0x100, q % 0x100, r % 0x100, r / 0x100]
  {
    FourBytes(v % UINT32_MOD);
    Bytes(v % UINT32_MOD, 4)
  }

  lemma Recompose(u: int)
    requires 0 <= u < UINT32_MOD
    ensures var q, r := u / 0x100, u / 0x100 / 0x100;
      r / 0x100 < 0x100 && Word(u % 0x100, q % 0x100, r % 0x100, r / 0x100) == u
  {
    var q, r := u / 0x100, u / 0x100 / 0x100;
    assert u == u % 0x100 + 0x100 * q && q == q % 0x100 + 0x100 * r && r == r % 0x100 + 0x100 * (r / 0x100);
  }

  lemma SignedOfBytes(v: int)
    requires INT32_MIN <= v < INT32_LIM
    ensures var s := Stored(v); Signed(s[0], s[1], s[2], s[3]) == v
  {
    var u := if v < 0 then v + UINT32_MOD else v;
    ModUp(v, u);
    Recompose(u);
    hide Word;
  }

  lemma BytesOfSigned(a: Byte, b: Byte, c: Byte, d: Byte)
    ensures Stored(Signed(a, b, c, d)) == [a, b, c, d]
  {
    var u := Word(a, b, c, d);
    var v := Signed(a, b, c, d);
    assert v % UINT32_MOD == u by { ModUp(v, u); }
    assert u / 0x100 == b + 0x100 * (c + 0x100 * d);
    assert u / 0x100 / 0x100 == c + 0x100 * d;
  }

  lemma ModUp(v: int, u: int)
    requires 0 <= u < UINT32_MOD && (v == u || v == u - UINT32_MOD)
    ensures v % UINT32_MOD == u
  {
  }

  // What the decoder stores for an absolute offset found at position pos.
  function ToRelative(abs: int, pos: int, filesize: int): int {
    if -pos <= abs < filesize then (if abs >= 0 then abs - pos else abs + filesize) else abs
  }

  // The mirrored step of an encoder.
  function ToAbsolute(rel: int, pos: int, filesize: int): int {
    if -pos <= rel < filesize then (if rel < filesize - pos then rel + pos else rel - filesize) else rel
  }

  /** For a positive file size the two steps are inverse bijections of the
      interval from -pos to filesize, and leave all else alone. */
  lemma StepsInverse(x: int, pos: int, filesize: int)
    requires 0 < filesize && 0 <= pos
    ensures ToAbsolute(ToRelative(x, pos, filesize), pos, filesize) == x
    ensures ToRelative(ToAbsolute(x, pos, filesize), pos, filesize) == x
    ensures (-pos <= ToRelative(x, pos, filesize) < filesize) <==> (-pos <= x < filesize)
  {
  }

  function Step(dir: Direction, v: int, pos: int, filesize: int): int {
    if dir == Decode then ToRelative(v, pos, filesize) else ToAbsolute(v, pos, filesize)
  }

  function Operand(s: seq<Byte>): (v: int)
    requires 5 <= |s|
    ensures INT32_MIN <= v < INT32_LIM
  {
    Signed(s[1], s[2], s[3], s[4])
  }

  lemma OperandBytes(s: seq<Byte>)
    requires 5 <= |s|
    ensures s == [s[0]] + Stored(Operand(s)) + s[5..]
  {
    BytesOfSigned(s[1], s[2], s[3], s[4]);
    assert s == [s[0]] + [s[1], s[2], s[3], s[4]] + s[5..];
  }

  // One pass over bytes that start at position pos of the output.
  function Pass(dir: Direction, s: seq<Byte>, pos: int, filesize: int): (t: seq<Byte>)
    ensures |t| == |s|
    decreases |s|
  {
    if |s| <= 10 then s
    else if s[0] != E8_LEADER then [s[0]] + Pass(dir, s[1..], pos + 1, filesize)
    else [s[0]] + Stored(Step(dir, Operand(s), pos, filesize)) + Pass(dir, s[5..], pos + 5, filesize)
  }

  /** No translation touches the last 6 bytes of a block. */
  lemma {:induction false} LastSixKept(dir: Direction, s: seq<Byte>, pos: int, filesize: int)
    ensures forall j :: 0 <= j < |s| <= j + 6 ==> Pass(dir, s, pos, filesize)[j] == s[j]
    decreases |s|
  {
    hide Bytes, Step, Signed;
    if |s| > 10 {
      if s[0] != E8_LEADER {
        LastSixKept(dir, s[1..], pos + 1, filesize);
      } else {
        LastSixKept(dir, s[5..], pos + 5, filesize);
      }
    }
  }

  function Opposite(dir: Direction): Direction {
    if dir == Decode then Encode else Decode
  }

  lemma StepInRange(dir: Direction, v: int, pos: int, filesize: int)
    requires 0 < filesize < INT32_LIM && 0 <= pos <= INT32_LIM && INT32_MIN <= v < INT32_LIM
    ensures INT32_MIN <= Step(dir, v, pos, filesize) < INT32_LIM
    ensures Step(Opposite(dir), Step(dir, v, pos, filesize), pos, filesize) == v
  {
    StepsInverse(v, pos, filesize);
  }

  /** With a positive file size the translation of any block is undone by the
      mirrored pass, in both directions: the two passes stop at the same
      leaders. */
  lemma {:induction false} PassInverse(dir: Direction, s: seq<Byte>, pos: int, filesize: int)
    requires 0 < filesize < INT32_LIM && 0 <= pos && pos + |s| <= INT32_LIM
    ensures Pass(Opposite(dir), Pass(dir, s, pos, filesize), pos, filesize) == s
    decreases |s|
  {
    hide Signed, Bytes, ToRelative, ToAbsolute;
    var t := Pass(dir, s, pos, filesize);
    if |s| > 10 {
      if s[0] != E8_LEADER {
        PassInverse(dir, s[1..], pos + 1, filesize);
        assert t[1..] == Pass(dir, s[1..], pos + 1, filesize);
        assert s == [s[0]] + s[1..];
      } else {
        var v := Operand(s);
        StepInRange(dir, v, pos, filesize);
        SignedOfBytes(Step(dir, v, pos, filesize));
        OperandBytes(s);
        PassInverse(dir, s[5..], pos + 5, filesize);
        assert t[5..] == Pass(dir, s[5..], pos + 5, filesize);
        assert Operand(t) == Step(dir, v, pos, filesize);
      }
    }
  }

  ghost predicate Injective(n: nat, pos: int, filesize: int) {
    forall s: seq<Byte>, t: seq<Byte> |
      |s| == |t| == n && Pass(Decode, s, pos, filesize) == Pass(Decode, t, pos, filesize)
      :: s == t
  }

  // A block of zeros with one leader, ten bytes before its end.
  function OneCall(n: nat, v: int): (s: seq<Byte>)
    requires 10 < n
    ensures |s| == n
    decreases n
  {
    if n > 11 then [0] + OneCall(n - 1, v)
    else [E8_LEADER] + Stored(v) + [0, 0, 0, 0, 0, 0]
  }

  lemma {:induction false} OneCallPass(n: nat, v: int, pos: int, filesize: int)
    requires 10 < n && INT32_MIN <= v < INT32_LIM
    ensures Pass(Decode, OneCall(n, v), pos, filesize) == OneCall(n, ToRelative(v, pos + n - 11, filesize))
    decreases n
  {
    hide Stored, Signed, ToRelative;
    var s := OneCall(n, v);
    if n > 11 {
      assert s[1..] == OneCall(n - 1, v);
      OneCallPass(n - 1, v, pos + 1, filesize);
    } else {
      SignedOfBytes(v);
      assert s[5..] == [0, 0, 0, 0, 0, 0];
    }
  }

  lemma {:induction false} OneCallDistinct(n: nat, v: int, w: int)
    requires 10 < n && INT32_MIN <= v < INT32_LIM && INT32_MIN <= w < INT32_LIM
    requires OneCall(n, v) == OneCall(n, w)
    ensures v == w
    decreases n
  {
    var s, t := OneCall(n, v), OneCall(n, w);
    if n > 11 {
      assert s[1..] == OneCall(n - 1, v) && t[1..] == OneCall(n - 1, w);
      OneCallDistinct(n - 1, v, w);
    } else {
      assert s[1..5] == Stored(v) && t[1..5] == Stored(w);
      SignedOfBytes(v);
      SignedOfBytes(w);
    }
  }

  // Below the position -filesize a negative file size has no effect.
  lemma {:induction false} PassIdle(s: seq<Byte>, pos: int, filesize: int)
    requires filesize <= 0 && 0 <= pos && (|s| <= 10 || pos + |s| - 11 <= -filesize)
    ensures Pass(Decode, s, pos, filesize) == s
    decreases |s|
  {
    hide Signed, Bytes;
    if |s| > 10 {
      if s[0] != E8_LEADER {
        PassIdle(s[1..], pos + 1, filesize);
        assert s == [s[0]] + s[1..];
      } else {
        PassIdle(s[5..], pos + 5, filesize);
        OperandBytes(s);
      }
    }
  }

  /** The header's file size is not checked to be positive.  Two different blocks
      of more than 10 bytes can be translated to the same bytes exactly when it
      is negative and some leader position lies beyond its absolute value. */
  lemma InjectiveIff(n: nat, pos: int, filesize: int)
    requires 10 < n && 0 <= pos && pos + n <= 0x4000_0000 && INT32_MIN <= filesize < INT32_LIM
    ensures Injective(n, pos, filesize) <==> 0 <= filesize || pos + n - 11 <= -filesize
  {
    hide Pass;
    if 0 < filesize {
      InvertibleInjective(n, pos, filesize);
    } else if filesize == 0 || pos + n - 11 <= -filesize {
      IdleInjective(n, pos, filesize);
    } else {
      Collision(n, pos, filesize);
    }
  }

  lemma InvertibleInjective(n: nat, pos: int, filesize: int)
    requires 0 < filesize < INT32_LIM && 0 <= pos && pos + n <= INT32_LIM
    ensures Injective(n, pos, filesize)
  {
    hide Pass;
    forall s: seq<Byte>, t: seq<Byte> |
      |s| == |t| == n && Pass(Decode, s, pos, filesize) == Pass(Decode, t, pos, filesize)
      ensures s == t
    {
      PassInverse(Decode, s, pos, filesize);
      PassInverse(Decode, t, pos, filesize);
    }
  }

  lemma IdleInjective(n: nat, pos: int, filesize: int)
    requires 0 <= pos && filesize <= 0 && (filesize == 0 || pos + n - 11 <= -filesize)
    ensures Injective(n, pos, filesize)
  {
    hide Pass;
    forall s: seq<Byte> | |s| == n
      ensures Pass(Decode, s, pos, filesize) == s
    {
      if filesize == 0 {
        ZeroSizeIdle(s, pos);
      } else {
        PassIdle(s, pos, filesize);
      }
    }
  }

  lemma Collision(n: nat, pos: int, filesize: int)
    requires 10 < n && 0 <= pos && pos + n <= 0x4000_0000 && INT32_MIN <= filesize < 0
    requires -filesize < pos + n - 11
    ensures !Injective(n, pos, filesize)
  {
    hide Pass, OneCall;
    var p := pos + n - 11;
    var s, t := OneCall(n, -p), OneCall(n, filesize - p);
    OneCallPass(n, -p, pos, filesize);
    OneCallPass(n, filesize - p, pos, filesize);
    if s == t {
      OneCallDistinct(n, -p, filesize - p);
    }
  }

  lemma {:induction false} ZeroSizeIdle(s: seq<Byte>, pos: int)
    requires 0 <= pos
    ensures Pass(Decode, s, pos, 0) == s
    decreases |s|
  {
    hide Signed, Bytes;
    if |s| > 10 {
      if s[0] != E8_LEADER {
        ZeroSizeIdle(s[1..], pos + 1);
        assert s == [s[0]] + s[1..];
      } else {
        ZeroSizeIdle(s[5..], pos + 5);
        OperandBytes(s);
      }
    }
  }

  // ---------- what the decoder's pass does, by positions ----------

  // The pass meets a leader at index p: it goes on behind the operand of the last one,
  // and ends ten bytes before the end.
  ghost predicate Meets(s: seq<Byte>, p: int)
    decreases |s|
  {
    |s| > 10 && if s[0] == 0xE8 then p == 0 || Meets(s[5..], p - 5) else Meets(s[1..], p - 1)
  }

  lemma {:induction false} MeetsWithin(s: seq<Byte>, p: int)
    requires Meets(s, p)
    ensures 0 <= p && p + 10 < |s| && s[p] == 0xE8
    decreases |s|
  {
    if s[0] != 0xE8 {
      MeetsWithin(s[1..], p - 1);
    } else if p != 0 {
      MeetsWithin(s[5..], p - 5);
    }
  }

  // The signed number in the four bytes behind index p, low-order byte first.
  function NumberBehind(s: seq<Byte>, p: nat): int
    requires p + 5 <= |s|
  {
    var b0: nat, b1: nat, b2: nat, b3: nat := s[p + 1], s[p + 2], s[p + 3], s[p + 4];
    var u := b0 + 0x100 * b1 + 0x1_0000 * b2 + 0x100_0000 * b3;
    if u >= 0x8000_0000 then u - 0x1_0000_0000 else u
  }

  // The operand of a call at address `at` before and after: an absolute address in the
  // file becomes the distance from the call; one up to that far in front of the file
  // is moved up by the size of the file, in 32 bits.
  predicate CallMoved(a: int, b: int, at: int, filesize: int) {
    if 0 <= a < filesize then at + b == a
    else if -at <= a < 0 && a < filesize then (b - (a + filesize)) % 0x1_0000_0000 == 0
    else b == a
  }

  // Index j lies in the operand of a call that is met.
  ghost predicate InOperand(s: seq<Byte>, j: int) {
    exists p :: Meets(s, p) && p < j <= p + 4
  }

  // t is s with the operands of all calls met moved, and nothing else.
  ghost predicate Relocated(s: seq<Byte>, t: seq<Byte>, pos: int, filesize: int) {
    && |t| == |s|
    && (forall p :: Meets(s, p) ==> CallAt(s, t, p, pos, filesize))
    && (forall j :: 0 <= j < |s| && !InOperand(s, j) ==> t[j] == s[j])
  }

  ghost predicate CallAt(s: seq<Byte>, t: seq<Byte>, p: int, pos: int, filesize: int) {
    && 0 <= p && p + 5 <= |s| == |t|
    && CallMoved(NumberBehind(s, p), NumberBehind(t, p), pos + p, filesize)
  }

  lemma NumberIsOperand(s: seq<Byte>)
    requires 5 <= |s|
    ensures NumberBehind(s, 0) == Operand(s)
  {
  }

  lemma FirstCall(s: seq<Byte>, pos: int, filesize: int)
    requires |s| > 10 && s[0] == E8_LEADER
    requires 0 <= pos && pos + |s| <= INT32_LIM && INT32_MIN <= filesize < INT32_LIM
    ensures CallAt(s, Pass(Decode, s, pos, filesize), 0, pos, filesize)
  {
    hide Stored, Operand, NumberBehind, Pass, Signed, ToRelative, CallMoved;
    var t := Pass(Decode, s, pos, filesize);
    NumberIsOperand(s);
    NumberIsOperand(t);
    FirstOperand(s, t, pos, filesize);
    OperandRange(s);
    OperandMoved(Operand(s), pos, filesize);
  }

  lemma OperandMoved(a: int, pos: int, filesize: int)
    requires 0 <= pos <= INT32_LIM && INT32_MIN <= filesize < INT32_LIM && INT32_MIN <= a < INT32_LIM
    ensures var b := Stored(ToRelative(a, pos, filesize));
      CallMoved(a, Signed(b[0], b[1], b[2], b[3]), pos, filesize)
  {
    hide Stored, Signed;
    var v := ToRelative(a, pos, filesize);
    SignedOfAny(v);
    if INT32_MIN <= v < INT32_LIM {
      SignedOfBytes(v);
    }
  }

  lemma OperandRange(s: seq<Byte>)
    requires 5 <= |s|
    ensures INT32_MIN <= Operand(s) < INT32_LIM
  {
  }

  // What does not fit is kept modulo 2^32.
  lemma SignedOfAny(v: int)
    ensures var s := Stored(v); (Signed(s[0], s[1], s[2], s[3]) - v) % UINT32_MOD == 0
  {
    hide Word, Stored;
    var u, s := v % UINT32_MOD, Stored(v);
    StoredIs(v);
    Recompose(u);
  }

  lemma StoredIs(v: int)
    ensures var u, s := v % UINT32_MOD, Stored(v);
      var q := u / 0x100;
      var r := q / 0x100;
      s[0] == u % 0x100 && s[1] == q % 0x100 && s[2] == r % 0x100 && s[3] == r / 0x100
  {
  }

  lemma FirstOperand(s: seq<Byte>, t: seq<Byte>, pos: int, filesize: int)
    requires |s| > 10 && s[0] == E8_LEADER && t == Pass(Decode, s, pos, filesize)
    ensures var b := Stored(ToRelative(Operand(s), pos, filesize));
      |t| > 10 && Operand(t) == Signed(b[0], b[1], b[2], b[3])
  {
    hide Stored, Signed, ToRelative;
    var b := Stored(ToRelative(Operand(s), pos, filesize));
    assert t[1] == b[0] && t[2] == b[1] && t[3] == b[2] && t[4] == b[3];
  }

  lemma {:induction false} PassCall(s: seq<Byte>, p: int, pos: int, filesize: int)
    requires Meets(s, p) && 0 <= pos && pos + |s| <= INT32_LIM && INT32_MIN <= filesize < INT32_LIM
    ensures CallAt(s, Pass(Decode, s, pos, filesize), p, pos, filesize)
    decreases |s|
  {
    hide Stored, Operand, NumberBehind, CallMoved, ToRelative;
    MeetsWithin(s, p);
    if s[0] == E8_LEADER && p == 0 {
      FirstCall(s, pos, filesize);
    } else {
      var k, t := if s[0] == E8_LEADER then 5 else 1, Pass(Decode, s, pos, filesize);
      PassCall(s[k..], p - k, pos + k, filesize);
      assert t[k..] == Pass(Decode, s[k..], pos + k, filesize);
      Shifted(s, p, k);
      Shifted(t, p, k);
    }
  }

  lemma Shifted(s: seq<Byte>, p: int, k: nat)
    requires k <= p && p + 5 <= |s|
    ensures NumberBehind(s[k..], p - k) == NumberBehind(s, p)
  {
  }

  lemma {:induction false} PassElsewhere(s: seq<Byte>, j: nat, pos: int, filesize: int)
    requires j < |s| && !InOperand(s, j)
    ensures Pass(Decode, s, pos, filesize)[j] == s[j]
    decreases |s|
  {
    hide Stored, Operand, ToRelative;
    if |s| > 10 && j > 0 {
      var k := if s[0] == E8_LEADER then 5 else 1;
      if s[0] == E8_LEADER {
        assert Meets(s, 0);
      }
      if p :| Meets(s[k..], p) && p < j - k <= p + 4 {
        MeetsWithin(s[k..], p);
        assert Meets(s, p + k);
      }
      PassElsewhere(s[k..], j - k, pos + k, filesize);
    }
  }

  /** The decoder's pass, by positions: every call that is met gets the operand that its
      address and the size of the file ask for, and no other byte changes. */
  lemma PassRelocates(s: seq<Byte>, pos: int, filesize: int)
    requires 0 <= pos && pos + |s| <= INT32_LIM && INT32_MIN <= filesize < INT32_LIM
    ensures Relocated(s, Pass(Decode, s, pos, filesize), pos, filesize)
  {
    hide Pass, Meets;
    var t := Pass(Decode, s, pos, filesize);
    forall p | Meets(s, p)
      ensures CallAt(s, t, p, pos, filesize)
    {
      PassCall(s, p, pos, filesize);
    }
    forall j | 0 <= j < |s| && !InOperand(s, j)
      ensures t[j] == s[j]
    {
      PassElsewhere(s, j, pos, filesize);
    }
  }

  /** At position 10 of a file of 1000 bytes the call of address 100 becomes a call 90
      bytes on. */
  lemma CallExample(s: seq<Byte>)
    requires s == [0xE8, 0x64, 0, 0, 0, 0, 0, 0, 0, 0, 0]
    ensures Pass(Decode, s, 10, 1000) == [0xE8, 0x5A, 0, 0, 0, 0, 0, 0, 0, 0, 0]
  {
    assert Operand(s) == 100 && Stored(90) == [0x5A, 0, 0, 0];
    assert s[5..] == [0, 0, 0, 0, 0, 0];
  }

  method PutOperand(data: array<Byte>, i: nat, v: int)
    requires i + 4 <= data.Length
    modifies data
    ensures data[..] == old(data[..i]) + Stored(v) + old(data[i + 4..])
  {
    var b := Stored(v);
    data[i], data[i + 1], data[i + 2], data[i + 3] := b[0], b[1], b[2], b[3];
  }

  // The pass over a block, given the part of it that is already done.
  ghost predicate Halfway(s0: seq<Byte>, pos0: int, s: seq<Byte>, i: nat, filesize: int) {
    i <= |s| && s[..i] + Pass(Decode, s[i..], pos0 + i, filesize) == Pass(Decode, s0, pos0, filesize)
  }

  lemma HalfwaySkip(s0: seq<Byte>, pos0: int, s: seq<Byte>, i: nat, filesize: int)
    requires Halfway(s0, pos0, s, i, filesize) && i + 10 < |s| && s[i] != E8_LEADER
    ensures Halfway(s0, pos0, s, i + 1, filesize)
  {
    assert s[i..][1..] == s[i + 1..] && s[..i + 1] == s[..i] + [s[i]];
    assert (s[..i] + [s[i]]) + Pass(Decode, s[i + 1..], pos0 + i + 1, filesize)
      == s[..i] + ([s[i]] + Pass(Decode, s[i + 1..], pos0 + i + 1, filesize));
  }

  lemma HalfwayCall(s0: seq<Byte>, pos0: int, s: seq<Byte>, i: nat, filesize: int, t: seq<Byte>)
    requires Halfway(s0, pos0, s, i, filesize) && i + 10 < |s| && s[i] == E8_LEADER
    requires t == s[..i + 1] + Stored(ToRelative(Operand(s[i..]), pos0 + i, filesize)) + s[i + 5..]
    ensures Halfway(s0, pos0, t, i + 5, filesize)
  {
    hide Signed, Bytes, ToRelative;
    var b := Stored(ToRelative(Operand(s[i..]), pos0 + i, filesize));
    assert s[i..][5..] == s[i + 5..] == t[i + 5..];
    assert t[..i + 5] == s[..i + 1] + b && s[..i + 1] == s[..i] + [s[i]];
    var rest := Pass(Decode, s[i + 5..], pos0 + i + 5, filesize);
    assert s[..i] + [s[i]] + b + rest == s[..i] + ([s[i]] + b + rest);
  }

  // The operand behind a leader, when it is in the range of the translation.
  method TranslateCall(data: array<Byte>, i: nat, curpos: int, filesize: int)
    requires 1 <= i && i + 4 <= data.Length
    modifies data
    ensures var s := old(data[..]);
      data[..] == s[..i] + Stored(ToRelative(Operand(s[i - 1..]), curpos, filesize)) + s[i + 4..]
  {
    hide Bytes, Signed;
    ghost var s := data[..];
    var absOff := Signed(data[i], data[i + 1], data[i + 2], data[i + 3]);
    assert absOff == Operand(s[i - 1..]);
    if absOff >= -curpos && absOff < filesize {
      var relOff := if absOff >= 0 then absOff - curpos else absOff + filesize;
      PutOperand(data, i, relOff);
    } else {
      OperandBytes(s[i - 1..]);
      assert s == s[..i] + Stored(absOff) + s[i + 4..];
    }
  }

  lemma HalfwayStart(s: seq<Byte>, pos: int, filesize: int)
    ensures Halfway(s, pos, s, 0, filesize)
  {
    hide Pass;
    assert s[..0] == [] && s[0..] == s && [] + Pass(Decode, s, pos, filesize) == Pass(Decode, s, pos, filesize);
  }

  lemma HalfwayEnd(s0: seq<Byte>, pos0: int, s: seq<Byte>, i: nat, filesize: int)
    requires Halfway(s0, pos0, s, i, filesize) && |s| <= i + 10
    ensures s == Pass(Decode, s0, pos0, filesize)
  {
    assert s == s[..i] + s[i..];
  }

  /** The decoder's loop over one output block, in place. */
  method TranslateE8(data: array<Byte>, intelCurpos: int, filesize: int)
    modifies data
    ensures data[..] == Pass(Decode, old(data[..]), intelCurpos, filesize)
    ensures 0 <= intelCurpos && intelCurpos + data.Length <= INT32_LIM && INT32_MIN <= filesize < INT32_LIM ==>
      Relocated(old(data[..]), data[..], intelCurpos, filesize)
  {
    hide Relocated, Halfway, Pass, Bytes, Operand, ToRelative;
    ghost var s0 := data[..];
    var curpos := intelCurpos;
    var i := 0;
    HalfwayStart(s0, intelCurpos, filesize);
    while i < data.Length - 10
      invariant 0 <= i <= data.Length && curpos == intelCurpos + i
      invariant Halfway(s0, intelCurpos, data[..], i, filesize)
    {
      ghost var s := data[..];
      i := i + 1;
      if data[i - 1] != E8_LEADER {
        HalfwaySkip(s0, intelCurpos, s, i - 1, filesize);
        curpos := curpos + 1;
        continue;
      }
      TranslateCall(data, i, curpos, filesize);
      HalfwayCall(s0, intelCurpos, s, i - 1, filesize, data[..]);
      i := i + 4;
      curpos := curpos + 5;
    }
    HalfwayEnd(s0, intelCurpos, data[..], i, filesize);
    if 0 <= intelCurpos && intelCurpos + data.Length <= INT32_LIM && INT32_MIN <= filesize < INT32_LIM {
      PassRelocates(s0, intelCurpos, filesize);
    }
  }
}
