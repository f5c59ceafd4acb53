/** The LZX bit buffer: 16-bit little-endian words, read from their top bit
    down, held left-aligned in a 32-bit buffer. */
module BitReader {
  import opened Wrappers
  import opened Shifts
  import opened Canonical
  import opened Forest
  import opened DecodeTable
  import opened Huffman

  // The memory the input pointer runs through: the compressed bytes and
  // whatever lies behind them.
  type Memory = nat -> Byte

  const WORD_MOD: nat := 0x1_0000_0000

  function WordAt(mem: Memory, i: nat): (w: nat)
    ensures w < 65536
  {
    mem(2 * i + 1) * 256 + mem(2 * i)
  }

  // The q-th bit of the stream.
  function Bit(mem: Memory, q: nat): nat {
    Shr(WordAt(mem, q / 16), 15 - q % 16) % 2
  }

  // The n bits from position q on, first bit most significant.
  function Val(mem: Memory, q: nat, n: nat): nat {
    if n == 0 then 0 else 2 * Val(mem, q, n - 1) + Bit(mem, q + n - 1)
  }

  lemma {:induction false} ValSplit(mem: Memory, q: nat, a: nat, b: nat)
    ensures Val(mem, q, a + b) == Shl(Val(mem, q, a), b) + Val(mem, q + a, b)
  {
    hide Shr, WordAt, Bit;
    if b > 0 {
      ValSplit(mem, q, a, b - 1);
      var v := Val(mem, q, a);
      ShlTwice(v, b - 1, 1);
      assert Shl(Shl(v, b - 1), 1) == 2 * Shl(v, b - 1);
    }
  }

  lemma {:induction false} ValBound(mem: Memory, q: nat, n: nat)
    ensures Val(mem, q, n) < Shl(1, n)
  {
    if n > 0 {
      ValBound(mem, q, n - 1);
      ShlTwice(1, n - 1, 1);
      assert Shl(Shl(1, n - 1), 1) == 2 * Shl(1, n - 1);
    }
  }

  lemma {:induction false} ValInWord(mem: Memory, i: nat, n: nat)
    requires n <= 16
    ensures Val(mem, 16 * i, n) == Shr(WordAt(mem, i), 16 - n)
  {
    if n > 0 {
      ValInWord(mem, i, n - 1);
      assert (16 * i + n - 1) / 16 == i && (16 * i + n - 1) % 16 == n - 1;
    } else {
      FullIsShl();
      Galois(1, WordAt(mem, i), 16);
    }
  }

  // The first n of k bits.
  lemma ValPrefix(mem: Memory, q: nat, n: nat, k: nat)
    requires n <= k
    ensures Shr(Val(mem, q, k), k - n) == Val(mem, q, n)
  {
    hide Val, Shl, Shr;
    ValSplit(mem, q, n, k - n);
    ValBound(mem, q + n, k - n);
    ShrUnique(Val(mem, q, n), Val(mem, q, k), k - n);
  }

  lemma {:induction false} ShlMul(x: nat, n: nat)
    ensures Shl(x, n) == x * Shl(1, n)
  {
    if n > 0 {
      ShlMul(x, n - 1);
      ShlTwice(x, n - 1, 1);
      ShlTwice(1, n - 1, 1);
      assert Shl(Shl(x, n - 1), 1) == 2 * Shl(x, n - 1) && Shl(Shl(1, n - 1), 1) == 2 * Shl(1, n - 1);
      assert x * (2 * Shl(1, n - 1)) == 2 * (x * Shl(1, n - 1));
    }
  }

  lemma WordModIsShl()
    ensures WORD_MOD == Shl(1, 32)
  {
    FullIsShl();
    ShlTwice(1, 16, 16);
    ShlMul(65536, 16);
  }

  // Loading a word below `left` buffered bits.
  lemma LoadWord(mem: Memory, q: nat, left: nat, i: nat)
    requires left <= 16 && q + left == 16 * i
    ensures Shl(Val(mem, q, left + 16), 16 - left)
      == Shl(Val(mem, q, left), 32 - left) + Shl(WordAt(mem, i), 16 - left)
  {
    hide Shl, Val, WordAt;
    ValSplit(mem, q, left, 16);
    ValInWord(mem, i, 16);
    assert Shr(WordAt(mem, i), 0) == WordAt(mem, i);
    ShlAdd(Shl(Val(mem, q, left), 16), WordAt(mem, i), 16 - left);
    ShlTwice(Val(mem, q, left), 16, 16 - left);
  }

  // Dropping the first n of the buffered bits off the top of 32 bits.
  lemma DropBits(mem: Memory, q: nat, left: nat, n: nat)
    requires n <= left <= 32
    ensures Shl(Shl(Val(mem, q, left), 32 - left), n) % WORD_MOD == Shl(Val(mem, q + n, left - n), 32 - (left - n))
  {
    hide Shl, Val;
    var hi, lo := Val(mem, q, n), Val(mem, q + n, left - n);
    ValSplit(mem, q, n, left - n);
    ShlTwice(Val(mem, q, left), 32 - left, n);
    ShlAdd(Shl(hi, left - n), lo, 32 - left + n);
    ShlTwice(hi, left - n, 32 - left + n);
    ShlMul(hi, 32);
    WordModIsShl();
    ValBound(mem, q + n, left - n);
    ShlMono(lo + 1, Shl(1, left - n), 32 - left + n);
    ShlAdd(lo, 1, 32 - left + n);
    ShlPositive(1, 32 - left + n);
    ShlTwice(1, left - n, 32 - left + n);
    var r := Shl(lo, 32 - left + n);
  }

  lemma WordBytes(mem: Memory, p: nat)
    requires p % 2 == 0
    ensures mem(p + 1) * 256 + mem(p) == WordAt(mem, p / 2)
  {
  }

  class Reader {
    const mem: Memory
    var bitbuf: nat
    var bitsleft: nat
    var inpos: nat

    ghost predicate Valid()
      reads this
    {
      && bitsleft <= 32 && inpos % 2 == 0 && bitsleft <= 8 * inpos
      && bitbuf == Shl(Val(mem, Pos(), bitsleft), 32 - bitsleft)
    }

    // The position in the stream of the next unread bit.
    ghost function Pos(): nat
      reads this
    {
      if bitsleft <= 8 * inpos then 8 * inpos - bitsleft else 0
    }

    constructor (mem: Memory)
      ensures Valid() && Pos() == 0 && this.mem == mem
    {
      this.mem := mem;
      bitbuf, bitsleft, inpos := 0, 0, 0;
      new;
      ShlZero(32);
    }

    // Makes at least n bits available.  The bits of the new word lie below
    // those in the buffer, so that setting them is adding them.
    method EnsureBits(n: nat)
      requires Valid() && n <= 17
      modifies this
      ensures Valid() && Pos() == old(Pos()) && n <= bitsleft
      ensures old(inpos) <= inpos && (inpos == old(inpos) || 8 * inpos < Pos() + n + 16)
    {
      hide Shl, Val, WordAt, Shr;
      while bitsleft < n
        invariant Valid() && Pos() == old(Pos())
        invariant old(inpos) <= inpos && (inpos == old(inpos) || 8 * inpos < Pos() + n + 16)
        decreases n - bitsleft
      {
        LoadWord(mem, Pos(), bitsleft, inpos / 2);
        var word: nat := mem(inpos + 1) * 256 + mem(inpos);
        WordBytes(mem, inpos);
        bitbuf := bitbuf + Shl(word, 16 - bitsleft);
        bitsleft, inpos := bitsleft + 16, inpos + 2;
      }
    }

    method PeekBits(n: nat) returns (v: nat)
      requires Valid() && n <= bitsleft
      ensures v == Val(mem, Pos(), n)
    {
      v := Shr(bitbuf, 32 - n);
      ShrOfShl(Val(mem, Pos(), bitsleft), 32 - bitsleft, 32 - n);
      ValPrefix(mem, Pos(), n, bitsleft);
    }

    method RemoveBits(n: nat)
      requires Valid() && n <= bitsleft
      modifies this
      ensures Valid() && Pos() == old(Pos()) + n && bitsleft == old(bitsleft) - n && inpos == old(inpos)
    {
      hide Val, Shl;
      DropBits(mem, Pos(), bitsleft, n);
      bitbuf := Shl(bitbuf, n) % WORD_MOD;
      bitsleft := bitsleft - n;
    }

    // No word has been loaded, or none in vain for the first n bits of the stream.
    ghost predicate Loaded(was: nat, n: nat)
      reads this
    {
      was <= inpos && n <= 8 * inpos && (inpos == was || 8 * inpos < n + 16)
    }

    lemma LoadedIs(was: nat, n: nat)
      requires Loaded(was, n)
      ensures was <= inpos && n <= 8 * inpos && (inpos == was || 8 * inpos < n + 16)
    {
    }

    // Two reads in a row.
    lemma LoadedAgain(was: nat, mid: nat, n: nat, m: nat)
      requires was <= mid && n <= 8 * mid && (mid == was || 8 * mid < n + 16) && Loaded(mid, m)
      ensures n <= m ==> Loaded(was, m)
      ensures m <= n ==> Loaded(was, n)
    {
    }

    /** Takes the next n bits of the stream. */
    method ReadBits(n: nat) returns (v: nat)
      requires Valid() && n <= 17
      modifies this
      ensures Valid() && v == Val(mem, old(Pos()), n) && Pos() == old(Pos()) + n
      ensures Loaded(old(inpos), Pos())
    {
      EnsureBits(n);
      v := PeekBits(n);
      RemoveBits(n);
    }

    // The bit of the buffer that the walk through the table looks at, d deep.
    lemma BufferBit(d: nat)
      requires Valid() && 16 <= bitsleft && d < 16
      ensures Shr(bitbuf, 31 - d) % 2 == Shr(Val(mem, Pos(), 16), 15 - d) % 2
    {
      ShrOfShl(Val(mem, Pos(), bitsleft), 32 - bitsleft, 16);
      ValPrefix(mem, Pos(), 16, bitsleft);
      ShrTwice(bitbuf, 16, 15 - d);
    }

    // The walk through the table and its trees on the buffered bits.
    method FollowBits(maxsyms: nat, nbits: nat, table: array<Word>, ghost w: nat, ghost goal: nat)
      returns (sym: nat)
      requires Valid() && 16 <= bitsleft && 1 <= nbits <= 15 && w == Val(mem, Pos(), 16)
      requires Lookup(table[..], maxsyms, nbits, w) == Some(goal)
      ensures sym == goal
    {
      hide Val, Shl, Shr, Valid, Pos, Follow;
      ghost var t := table[..];
      var entry := PeekBits(nbits);
      ValPrefix(mem, Pos(), nbits, 16);
      FollowStep(t, maxsyms, entry, w, nbits);
      var i: nat := table[entry];
      if i >= maxsyms {
        var j := 32 - nbits;
        while true
          invariant 16 < j <= 32 - nbits && i >= maxsyms
          invariant entry < |t| && t[entry] == i
          invariant Follow(t, maxsyms, entry, w, 32 - j) == Some(goal)
          decreases j
        {
          FollowStep(t, maxsyms, entry, w, 32 - j);
          BufferBit(32 - j);
          j := j - 1;
          entry := 2 * i + Shr(bitbuf, j) % 2;
          FollowStep(t, maxsyms, entry, w, 32 - j);
          i := table[entry];
          if i < maxsyms {
            break;
          }
        }
      }
      sym := i;
    }

    /** Decodes one symbol with a table that make_decode_table accepted. */
    method ReadHuffSym(maxsyms: nat, nbits: nat, length: array<Byte>, table: array<Word>) returns (sym: nat)
      requires Valid() && 1 <= nbits <= 15 && 0 < maxsyms <= length.Length
      requires Usable(table[..], length[..maxsyms], nbits)
      modifies this
      ensures Valid() && sym < maxsyms && length[sym] <= 16 && Pos() == old(Pos()) + length[sym]
      ensures Loaded(old(inpos), old(Pos()) + 16)
      ensures Complete(length[..maxsyms], nbits) ==>
        Decodes(length[..maxsyms], sym, Val(mem, old(Pos()), 16))
      ensures AllZero(length[..maxsyms]) ==> sym == 0
    {
      hide Val, Shr, Complete, AllZero, Usable, Decodes, Lookup;
      EnsureBits(16);
      WindowLooksUp(table[..], length[..maxsyms], nbits, mem, Pos());
      ghost var w := Val(mem, Pos(), 16);
      ghost var goal := Lookup(table[..], maxsyms, nbits, w).value;
      sym := FollowBits(maxsyms, nbits, table, w, goal);
      assert length[sym] == length[..maxsyms][sym];
      var n: nat := length[sym];
      RemoveBits(n);
    }
  }

  // A finished table: a complete code, or no code at all.
  ghost predicate Usable(t: seq<Word>, lens: seq<Byte>, nbits: nat)
    requires 1 <= nbits <= 15
  {
    && Accepted(lens, nbits)
    && (Complete(lens, nbits) ==> DecodesAll(t, lens, nbits))
    && (AllZero(lens) ==> Shl(1, nbits) <= |t| && forall e :: 0 <= e < Shl(1, nbits) ==> t[e] == 0)
  }

  lemma FollowStep(t: seq<Word>, maxsyms: nat, e: nat, w: nat, d: nat)
    requires d <= 16 && Follow(t, maxsyms, e, w, d).Some?
    ensures e < |t|
    ensures t[e] < maxsyms ==> Follow(t, maxsyms, e, w, d) == Some(t[e])
    ensures t[e] >= maxsyms ==>
      d < 16
      && Follow(t, maxsyms, e, w, d) == Follow(t, maxsyms, 2 * t[e] + Shr(w, 15 - d) % 2, w, d + 1)
  {
  }

  lemma WindowLooksUp(t: seq<Word>, lens: seq<Byte>, nbits: nat, mem: Memory, q: nat)
    requires 1 <= nbits <= 15 && 0 < |lens| && Usable(t, lens, nbits)
    ensures Val(mem, q, 16) < FULL
    ensures var r := Lookup(t, |lens|, nbits, Val(mem, q, 16));
      && r.Some? && r.value < |lens| && lens[r.value] <= 16
      && (Complete(lens, nbits) ==> Decodes(lens, r.value, Val(mem, q, 16)))
      && (AllZero(lens) ==> r.value == 0)
  {
    var w := Val(mem, q, 16);
    ValBound(mem, q, 16);
    FullIsShl();
    if Complete(lens, nbits) {
      assert DecodesAt(t, lens, nbits, w);
    }
    if AllZero(lens) {
      FullTable(nbits);
      Galois(Shl(1, nbits), w, 16 - nbits);
    }
  }
}
