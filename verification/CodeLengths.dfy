/** lzx_read_lens: code lengths sent as run lengths and differences modulo 17,
    themselves Huffman coded with a 20-symbol pretree. */
module CodeLengths {
  import opened Shifts
  import opened Canonical
  import opened Forest
  import opened Huffman
  import opened BitReader

  const PRETREE_SYMBOLS: nat := 20
  const PRETREE_BITS: nat := 6

  // What one code of the pretree, with the bits after it, says: a run of zero
  // lengths, a run of one changed length, or one changed length.
  datatype Token = Zeros(n: nat) | Same(n: nat, z: nat) | Delta(z: nat) {
    predicate Valid() {
      match this
      case Zeros(n) => 4 <= n <= 51
      case Same(n, z) => 4 <= n <= 5 && z < PRETREE_SYMBOLS
      case Delta(z) => z < 17
    }

    function Run(): (n: nat)
      ensures Valid() ==> 1 <= n <= 51
    {
      match this
      case Zeros(n) => n
      case Same(n, _) => n
      case Delta(_) => 1
    }
  }

  // The new length, stored in a byte.
  function Changed(o: Byte, z: nat): Byte
    requires z < PRETREE_SYMBOLS
  {
    if z <= o then o - z else (o - z + 17) % 256
  }

  function Value(t: Token, o: Byte): Byte
    requires t.Valid()
  {
    match t
    case Zeros(_) => 0
    case Same(_, z) => Changed(o, z)
    case Delta(z) => Changed(o, z)
  }

  function Filled(s: seq<Byte>, x: nat, n: nat, v: Byte): (r: seq<Byte>)
    requires x + n <= |s|
    ensures |r| == |s|
  {
    seq(|s|, i requires 0 <= i < |s| => if x <= i < x + n then v else s[i])
  }

  function ApplyToken(t: Token, s: seq<Byte>, x: nat): (r: seq<Byte>)
    requires t.Valid() && x + t.Run() <= |s|
    ensures |r| == |s|
  {
    Filled(s, x, t.Run(), Value(t, s[x]))
  }

  /** A token of zeros sets its run to 0; the others set theirs to one length, which is
      the length at its beginning less z modulo 17; and nothing else changes. */
  lemma TokenApplied(t: Token, s: seq<Byte>, x: nat, i: nat)
    requires t.Valid() && x + t.Run() <= |s| && i < |s| && s[x] <= 16
    ensures var r := ApplyToken(t, s, x);
      match t
      case Zeros(n) => r[i] == if x <= i < x + n then 0 else s[i]
      case Same(n, z) =>
        if x <= i < x + n then z <= 16 ==> r[i] <= 16 && (r[i] + z) % 17 == s[x] % 17 else r[i] == s[i]
      case Delta(z) => if i == x then r[i] <= 16 && (r[i] + z) % 17 == s[x] % 17 else r[i] == s[i]
  {
    if !t.Zeros? && t.z <= 16 && t.z > s[x] {
      var v := Changed(s[x], t.z);
      assert v + t.z == s[x] + 17;
    }
  }

  ghost predicate AllValid(ts: seq<Token>) {
    forall i :: 0 <= i < |ts| ==> ts[i].Valid()
  }

  function Total(ts: seq<Token>): nat {
    if ts == [] then 0 else Total(ts[..|ts| - 1]) + ts[|ts| - 1].Run()
  }

  // The lengths after the tokens have been applied from index x on.
  ghost function Apply(ts: seq<Token>, s: seq<Byte>, x: nat): (r: seq<Byte>)
    requires AllValid(ts) && x + Total(ts) <= |s|
    ensures |r| == |s|
  {
    if ts == [] then s
    else
      var front, last := ts[..|ts| - 1], ts[|ts| - 1];
      ApplyToken(last, Apply(front, s, x), x + Total(front))
  }

  // The codeword of symbol s stands at position q of the stream.
  ghost predicate CodeAt(pre: seq<Byte>, mem: Memory, q: nat, s: nat) {
    Coded(pre, s) && Val(mem, q, pre[s]) == Codeword(pre, s)
  }

  ghost predicate TokenAt(pre: seq<Byte>, mem: Memory, q: nat, t: Token)
    requires |pre| == PRETREE_SYMBOLS
  {
    match t
    case Zeros(n) =>
      if n < 20 then 4 <= n && CodeAt(pre, mem, q, 17) && Val(mem, q + pre[17], 4) == n - 4
      else CodeAt(pre, mem, q, 18) && Val(mem, q + pre[18], 5) == n - 20
    case Same(n, z) =>
      && 4 <= n && z < PRETREE_SYMBOLS && CodeAt(pre, mem, q, 19)
      && Val(mem, q + pre[19], 1) == n - 4 && CodeAt(pre, mem, q + pre[19] + 1, z)
    case Delta(z) => z < 17 && CodeAt(pre, mem, q, z)
  }

  function CodeLen(pre: seq<Byte>, s: nat): nat
    requires s < |pre|
  {
    pre[s]
  }

  ghost function TokenBits(pre: seq<Byte>, t: Token): nat
    requires |pre| == PRETREE_SYMBOLS && t.Valid()
  {
    match t
    case Zeros(n) => if n < 20 then 4 + CodeLen(pre, 17) else 5 + CodeLen(pre, 18)
    case Same(_, z) => 1 + CodeLen(pre, 19) + CodeLen(pre, z)
    case Delta(z) => pre[z]
  }

  ghost function Bits(pre: seq<Byte>, ts: seq<Token>): nat
    requires |pre| == PRETREE_SYMBOLS && AllValid(ts)
  {
    if ts == [] then 0 else Bits(pre, ts[..|ts| - 1]) + TokenBits(pre, ts[|ts| - 1])
  }

  // Where the last symbol of a token stands.
  ghost function SymbolPos(pre: seq<Byte>, q: nat, t: Token): nat
    requires |pre| == PRETREE_SYMBOLS
  {
    if t.Same? then q + 1 + CodeLen(pre, 19) else q
  }

  // How far a token makes the reader look: symbols ask for 16 bits.
  ghost function TokenFar(pre: seq<Byte>, q: nat, t: Token): nat
    requires |pre| == PRETREE_SYMBOLS && t.Valid()
  {
    var e, f := q + TokenBits(pre, t), SymbolPos(pre, q, t) + 16;
    if e > f then e else f
  }

  ghost function Far(pre: seq<Byte>, q: nat, ts: seq<Token>): nat
    requires |pre| == PRETREE_SYMBOLS && AllValid(ts)
  {
    if ts == [] then q else TokenFar(pre, q + Bits(pre, ts[..|ts| - 1]), ts[|ts| - 1])
  }

  // The stream from q on is the tokens, one after the other.
  ghost predicate Encoded(pre: seq<Byte>, mem: Memory, q: nat, ts: seq<Token>)
    requires |pre| == PRETREE_SYMBOLS && AllValid(ts)
  {
    ts == [] ||
    (var front := ts[..|ts| - 1];
     Encoded(pre, mem, q, front) && TokenAt(pre, mem, q + Bits(pre, front), ts[|ts| - 1]))
  }

  // The tokens start below `last` one after the other and reach it.
  ghost predicate Reaches(ts: seq<Token>, first: nat, last: nat) {
    && last <= first + Total(ts)
    && (ts == [] || first + Total(ts[..|ts| - 1]) < last)
  }

  lemma DecodedCode(pre: seq<Byte>, mem: Memory, q: nat, s: nat)
    requires Decodes(pre, s, Val(mem, q, 16))
    ensures CodeAt(pre, mem, q, s)
  {
    DecodesIsPrefix(pre, s, Val(mem, q, 16));
    ValPrefix(mem, q, pre[s], 16);
  }

  lemma CodesDisjoint(pre: seq<Byte>, mem: Memory, q: nat, s: nat, t: nat)
    requires CodeAt(pre, mem, q, s) && CodeAt(pre, mem, q, t)
    ensures s == t
  {
    var w := Val(mem, q, 16);
    ValPrefix(mem, q, pre[s], 16);
    ValPrefix(mem, q, pre[t], 16);
    DecodesIsPrefix(pre, s, w);
    DecodesIsPrefix(pre, t, w);
    DecodesUnique(pre, s, t, w);
  }

  // No two tokens can stand at the same place of the stream.
  lemma TokensDisjoint(pre: seq<Byte>, mem: Memory, q: nat, t: Token, u: Token)
    requires |pre| == PRETREE_SYMBOLS && t.Valid() && u.Valid()
    requires TokenAt(pre, mem, q, t) && TokenAt(pre, mem, q, u)
    ensures t == u
  {
    hide Val, Coded, Codeword;
    CodesDisjoint(pre, mem, q, Lead(t), Lead(u));
    if t.Same? {
      CodesDisjoint(pre, mem, q + pre[19] + 1, t.z, u.z);
    }
  }

  ghost function Lead(t: Token): nat {
    match t
    case Zeros(n) => if n < 20 then 17 else 18
    case Same(_, _) => 19
    case Delta(z) => z
  }

  // One symbol of the pretree.
  method ReadSymbol(br: Reader, preLen: array<Byte>, preTable: array<Word>, ghost pre: seq<Byte>) returns (z: nat)
    requires br.Valid() && PRETREE_SYMBOLS <= preLen.Length && pre == preLen[..PRETREE_SYMBOLS]
    requires Usable(preTable[..], pre, PRETREE_BITS)
    modifies br
    ensures br.Valid() && z < PRETREE_SYMBOLS && pre[z] <= 16 && br.Pos() == old(br.Pos()) + pre[z]
    ensures br.Loaded(old(br.inpos), old(br.Pos()) + 16)
    ensures Complete(pre, PRETREE_BITS) ==> CodeAt(pre, br.mem, old(br.Pos()), z)
    ensures AllZero(pre) ==> z == 0 && pre[z] == 0
  {
    hide Decodes, Complete, AllZero, Usable, Val, Coded, Codeword;
    ghost var q := br.Pos();
    z := br.ReadHuffSym(PRETREE_SYMBOLS, PRETREE_BITS, preLen, preTable);
    if Complete(pre, PRETREE_BITS) {
      DecodedCode(pre, br.mem, q, z);
    }
    if AllZero(pre) {
      AllZeroAt(pre, z);
    }
  }

  // The number behind a symbol, and how far has been looked for it.
  method ReadNumber(br: Reader, n: nat, ghost was: nat, ghost far: nat) returns (y: nat)
    requires br.Valid() && n <= 5 && br.Loaded(was, far)
    modifies br
    ensures br.Valid() && y == Val(br.mem, old(br.Pos()), n) && br.Pos() == old(br.Pos()) + n
    ensures br.Loaded(was, if far < br.Pos() then br.Pos() else far)
    ensures y < 32 && (n <= 4 ==> y < 16) && (n <= 1 ==> y < 2)
  {
    hide Val, Reader.Valid, Reader.Pos;
    ghost var mid := br.inpos;
    ValSmall(br.mem, br.Pos(), n);
    y := br.ReadBits(n);
    br.LoadedAgain(was, mid, far, br.Pos());
  }

  // The symbol behind code 19 and its bit.
  method ReadChange(br: Reader, preLen: array<Byte>, preTable: array<Word>, ghost pre: seq<Byte>,
                    ghost was: nat, ghost far: nat)
    returns (z: nat)
    requires br.Valid() && PRETREE_SYMBOLS <= preLen.Length && pre == preLen[..PRETREE_SYMBOLS]
    requires Usable(preTable[..], pre, PRETREE_BITS)
    requires br.Loaded(was, far) && far <= br.Pos() + 16
    modifies br
    ensures br.Valid() && z < PRETREE_SYMBOLS && pre[z] <= 16 && br.Pos() == old(br.Pos()) + pre[z]
    ensures br.Loaded(was, old(br.Pos()) + 16)
    ensures Complete(pre, PRETREE_BITS) ==> CodeAt(pre, br.mem, old(br.Pos()), z)
    ensures AllZero(pre) ==> z == 0 && pre[z] == 0
  {
    hide CodeAt, Complete, AllZero, Usable, Reader.Valid, Reader.Pos;
    ghost var mid, q := br.inpos, br.Pos();
    z := ReadSymbol(br, preLen, preTable, pre);
    br.LoadedAgain(was, mid, far, q + 16);
  }

  // One token is read and carried out; the index moves past its run.
  method ReadToken(lens: array<Byte>, x: nat, br: Reader, preLen: array<Byte>, preTable: array<Word>,
                   ghost pre: seq<Byte>)
    returns (x': nat, ghost t: Token)
    requires br.Valid() && lens != preLen && x + 51 <= lens.Length
    requires PRETREE_SYMBOLS <= preLen.Length && pre == preLen[..PRETREE_SYMBOLS]
    requires Usable(preTable[..], pre, PRETREE_BITS)
    modifies br, lens
    ensures br.Valid() && t.Valid() && x' == x + t.Run()
    ensures lens[..] == ApplyToken(t, old(lens[..]), x)
    ensures br.Pos() == old(br.Pos()) + TokenBits(pre, t)
    ensures br.Loaded(old(br.inpos), TokenFar(pre, old(br.Pos()), t))
    ensures Complete(pre, PRETREE_BITS) ==> TokenAt(pre, br.mem, old(br.Pos()), t)
    ensures AllZero(pre) ==> t == Delta(0)
  {
    hide CodeAt, Complete, AllZero, Usable, Val, Changed, Filled, Reader.Valid, Reader.Pos, Reader.Loaded;
    ghost var q, was := br.Pos(), br.inpos;
    var z := ReadSymbol(br, preLen, preTable, pre);
    if z == 17 {
      var y := ReadNumber(br, 4, was, q + 16);
      t := Zeros(y + 4);
      x' := FillLens(lens, x, y + 4, 0);
    } else if z == 18 {
      var y := ReadNumber(br, 5, was, q + 16);
      t := Zeros(y + 20);
      x' := FillLens(lens, x, y + 20, 0);
    } else if z == 19 {
      var y := ReadNumber(br, 1, was, q + 16);
      z := ReadChange(br, preLen, preTable, pre, was, if q + 16 < br.Pos() then br.Pos() else q + 16);
      t := Same(y + 4, z);
      var v := Changed(lens[x], z);
      x' := FillLens(lens, x, y + 4, v);
    } else {
      t := Delta(z);
      var v := Changed(lens[x], z);
      x' := FillLens(lens, x, 1, v);
    }
  }

  lemma AllZeroAt(pre: seq<Byte>, z: nat)
    requires AllZero(pre) && z < |pre|
    ensures pre[z] == 0
  {
  }

  lemma ValSmall(mem: Memory, q: nat, n: nat)
    requires n <= 5
    ensures Val(mem, q, n) < 32 && (n <= 4 ==> Val(mem, q, n) < 16) && (n <= 1 ==> Val(mem, q, n) < 2)
  {
    ValBound(mem, q, n);
    assert Shl(1, 5) == 32 by { assert Shl(1, 5) == Shl(4, 3) == Shl(16, 1); }
    assert Shl(1, 4) == 16 by { assert Shl(1, 4) == Shl(4, 2) == Shl(16, 0); }
    assert Shl(1, 1) == 2;
    if n <= 4 {
      ShlTwice(1, n, 4 - n);
      ShlPositive(Shl(1, n), 4 - n);
    }
  }

  method FillLens(lens: array<Byte>, x: nat, n: nat, v: Byte) returns (x': nat)
    requires x + n <= lens.Length
    modifies lens
    ensures x' == x + n && lens[..] == Filled(old(lens[..]), x, n, v)
  {
    var y := n;
    x' := x;
    while y > 0
      invariant x' + y == x + n && x <= x'
      invariant forall i :: 0 <= i < lens.Length ==> lens[i] == if x <= i < x' then v else old(lens[i])
    {
      y := y - 1;
      lens[x'] := v;
      x' := x' + 1;
    }
  }

  // The 20 lengths of the pretree, four bits each.
  ghost function PretreeAt(mem: Memory, q: nat): (pre: seq<Byte>)
    ensures |pre| == PRETREE_SYMBOLS
  {
    seq(PRETREE_SYMBOLS, i requires 0 <= i < PRETREE_SYMBOLS => PretreeLen(mem, q, i))
  }

  ghost function PretreeLen(mem: Memory, q: nat, i: nat): Byte {
    ValSmall(mem, q + 4 * i, 4);
    Val(mem, q + 4 * i, 4)
  }

  method ReadPretree(br: Reader, preLen: array<Byte>, preTable: array<Word>) returns (err: bool)
    requires br.Valid() && PRETREE_SYMBOLS <= preLen.Length
    requires 64 + 2 * (PRETREE_SYMBOLS + 16 - PRETREE_BITS) <= preTable.Length
    modifies br, preLen, preTable
    ensures br.Valid() && br.Pos() == old(br.Pos()) + 80 && br.Loaded(old(br.inpos), br.Pos())
    ensures preLen[..PRETREE_SYMBOLS] == PretreeAt(br.mem, old(br.Pos()))
    ensures !err <==> Accepted(PretreeAt(br.mem, old(br.Pos())), PRETREE_BITS)
    ensures !err ==> Usable(preTable[..], preLen[..PRETREE_SYMBOLS], PRETREE_BITS)
  {
    hide Val, Complete, AllZero, DecodesAll;
    ghost var q := br.Pos();
    for x := 0 to PRETREE_SYMBOLS
      invariant br.Valid() && br.Pos() == q + 4 * x && br.Loaded(old(br.inpos), br.Pos())
      invariant forall i :: 0 <= i < x ==> preLen[i] == PretreeLen(br.mem, q, i)
    {
      ValSmall(br.mem, q + 4 * x, 4);
      var y := br.ReadBits(4);
      preLen[x] := y;
    }
    assert preLen[..PRETREE_SYMBOLS] == PretreeAt(br.mem, q);
    assert Shl(1, 6) == 64 && Shl(1, 5) == 32 by {
      assert Shl(1, 6) == Shl(4, 4) == Shl(16, 2) == Shl(64, 0);
      assert Shl(1, 5) == Shl(4, 3) == Shl(16, 1);
    }
    DecodeTable.RoomIsSmall(preLen[..PRETREE_SYMBOLS], PRETREE_BITS);
    err := MakeDecodeTable(PRETREE_SYMBOLS, PRETREE_BITS, preLen, preTable);
  }

  lemma ApplySnoc(ts: seq<Token>, t: Token, s: seq<Byte>, x: nat)
    requires AllValid(ts) && t.Valid() && x + Total(ts) + t.Run() <= |s|
    ensures AllValid(ts + [t]) && Total(ts + [t]) == Total(ts) + t.Run()
    ensures Apply(ts + [t], s, x) == ApplyToken(t, Apply(ts, s, x), x + Total(ts))
    ensures forall last: nat :: x + Total(ts) < last <= x + Total(ts) + t.Run() ==> Reaches(ts + [t], x, last)
  {
    assert (ts + [t])[..|ts|] == ts;
  }

  lemma EncodedSnoc(pre: seq<Byte>, mem: Memory, q: nat, ts: seq<Token>, t: Token)
    requires |pre| == PRETREE_SYMBOLS && AllValid(ts) && t.Valid()
    requires Encoded(pre, mem, q, ts) && TokenAt(pre, mem, q + Bits(pre, ts), t)
    ensures Encoded(pre, mem, q, ts + [t]) && Bits(pre, ts + [t]) == Bits(pre, ts) + TokenBits(pre, t)
  {
    hide TokenAt, TokenBits;
    var us := ts + [t];
    assert us[..|us| - 1] == ts && us[|us| - 1] == t;
    assert AllValid(us);
  }

  // A pretree without codes yields zero differences, which change nothing.
  lemma {:induction false} NothingChanges(pre: seq<Byte>, ts: seq<Token>, s: seq<Byte>, x: nat)
    requires x + Total(ts) <= |s| && NoDifference(ts) && |pre| == PRETREE_SYMBOLS && pre[0] == 0
    ensures AllValid(ts) && Apply(ts, s, x) == s && Bits(pre, ts) == 0
  {
    if ts != [] {
      NothingChanges(pre, ts[..|ts| - 1], s, x);
    }
  }

  ghost predicate NoDifference(ts: seq<Token>) {
    forall i :: 0 <= i < |ts| ==> ts[i] == Delta(0)
  }

  // The tokens read so far, starting at bit q, have led from s0 to s.
  ghost predicate Progress(pre: seq<Byte>, mem: Memory, q: nat, p: nat, ts: seq<Token>,
                           s0: seq<Byte>, s: seq<Byte>, first: nat)
    requires |pre| == PRETREE_SYMBOLS
  {
    && AllValid(ts) && first + Total(ts) <= |s0| && s == Apply(ts, s0, first) && p == q + Bits(pre, ts)
    && (Complete(pre, PRETREE_BITS) ==> Encoded(pre, mem, q, ts))
    && (AllZero(pre) ==> NoDifference(ts))
  }

  lemma ProgressStart(pre: seq<Byte>, mem: Memory, q: nat, s0: seq<Byte>, first: nat)
    requires |pre| == PRETREE_SYMBOLS && first <= |s0|
    ensures Progress(pre, mem, q, q, [], s0, s0, first)
  {
  }

  lemma ProgressStep(pre: seq<Byte>, mem: Memory, q: nat, p: nat, p': nat, ts: seq<Token>, t: Token,
                     s0: seq<Byte>, s: seq<Byte>, first: nat)
    requires |pre| == PRETREE_SYMBOLS && Progress(pre, mem, q, p, ts, s0, s, first)
    requires t.Valid() && first + Total(ts) + t.Run() <= |s0|
    requires p' == p + TokenBits(pre, t)
    requires Complete(pre, PRETREE_BITS) ==> TokenAt(pre, mem, p, t)
    requires AllZero(pre) ==> t == Delta(0)
    ensures Progress(pre, mem, q, p', ts + [t], s0, ApplyToken(t, s, first + Total(ts)), first)
    ensures Total(ts + [t]) == Total(ts) + t.Run() && Bits(pre, ts + [t]) == Bits(pre, ts) + TokenBits(pre, t)
    ensures forall last: nat :: first + Total(ts) < last <= first + Total(ts) + t.Run() ==>
      Reaches(ts + [t], first, last)
  {
    hide Complete, AllZero, TokenAt, TokenBits, ApplyToken;
    ApplySnoc(ts, t, s0, first);
    if Complete(pre, PRETREE_BITS) {
      EncodedSnoc(pre, mem, q, ts, t);
    }
  }

  lemma FarStart(pre: seq<Byte>, q: nat)
    requires |pre| == PRETREE_SYMBOLS
    ensures Far(pre, q, []) == q && Bits(pre, []) == 0
  {
  }

  lemma FarStep(pre: seq<Byte>, q: nat, p: nat, ts: seq<Token>, t: Token)
    requires |pre| == PRETREE_SYMBOLS && AllValid(ts) && t.Valid() && p == q + Bits(pre, ts)
    ensures AllValid(ts + [t]) && Far(pre, q, ts + [t]) == TokenFar(pre, p, t)
    ensures Far(pre, q, ts) <= TokenFar(pre, p, t)
  {
    assert (ts + [t])[..|ts|] == ts;
  }

  // The tokens at q, as far as the index `last`; a pretree without codes has the
  // one symbol 0.
  ghost predicate Spells(pre: seq<Byte>, mem: Memory, q: nat, ts: seq<Token>, first: nat, last: nat)
    requires |pre| == PRETREE_SYMBOLS
  {
    && AllValid(ts) && Reaches(ts, first, last)
    && (Complete(pre, PRETREE_BITS) ==> Encoded(pre, mem, q, ts))
    && (AllZero(pre) ==> NoDifference(ts))
  }

  lemma ProgressDone(pre: seq<Byte>, mem: Memory, q: nat, p: nat, ts: seq<Token>,
                     s0: seq<Byte>, s: seq<Byte>, first: nat)
    requires |pre| == PRETREE_SYMBOLS && Progress(pre, mem, q, p, ts, s0, s, first)
    ensures AllValid(ts) && first + Total(ts) <= |s0| && s == Apply(ts, s0, first) && p == q + Bits(pre, ts)
    ensures forall last: nat :: Reaches(ts, first, last) ==> Spells(pre, mem, q, ts, first, last)
    ensures Complete(pre, PRETREE_BITS) ==> Encoded(pre, mem, q, ts) && p == q + Bits(pre, ts)
    ensures AllZero(pre) ==> p == q && s == s0
  {
    hide Complete, AllZero;
    if AllZero(pre) {
      AllZeroAt(pre, 0);
      NothingChanges(pre, ts, s0, first);
    }
  }

  /** Reads the lengths of symbols first..last-1.  Runs may overshoot `last`, by
      less than the 64 entries the source allows for. */
  method ReadLens(lens: array<Byte>, first: nat, last: nat, br: Reader,
                  preLen: array<Byte>, preTable: array<Word>)
    returns (err: bool, ghost ts: seq<Token>)
    requires br.Valid() && first <= last && last + 50 <= lens.Length && lens != preLen
    requires PRETREE_SYMBOLS <= preLen.Length
    requires 64 + 2 * (PRETREE_SYMBOLS + 16 - PRETREE_BITS) <= preTable.Length
    modifies br, lens, preLen, preTable
    ensures br.Valid()
    ensures !err <==> Accepted(PretreeAt(br.mem, old(br.Pos())), PRETREE_BITS)
    ensures err ==> lens[..] == old(lens[..])
    ensures !err ==> AllValid(ts) && Reaches(ts, first, last) && first + Total(ts) <= lens.Length
    ensures !err ==> lens[..] == Apply(ts, old(lens[..]), first)
    ensures !err ==> Spells(PretreeAt(br.mem, old(br.Pos())), br.mem, old(br.Pos()) + 80, ts, first, last)
    ensures !err ==> br.Pos() == old(br.Pos()) + 80 + Bits(PretreeAt(br.mem, old(br.Pos())), ts)
    ensures !err ==> br.Loaded(old(br.inpos), Far(PretreeAt(br.mem, old(br.Pos())), old(br.Pos()) + 80, ts))
    ensures Complete(PretreeAt(br.mem, old(br.Pos())), PRETREE_BITS) ==>
      AllValid(ts) && Encoded(PretreeAt(br.mem, old(br.Pos())), br.mem, old(br.Pos()) + 80, ts)
    ensures Complete(PretreeAt(br.mem, old(br.Pos())), PRETREE_BITS) ==>
      AllValid(ts) && br.Pos() == old(br.Pos()) + 80 + Bits(PretreeAt(br.mem, old(br.Pos())), ts)
    ensures AllZero(PretreeAt(br.mem, old(br.Pos()))) ==>
      lens[..] == old(lens[..]) && br.Pos() == old(br.Pos()) + 80
  {
    hide Complete, AllZero, Usable, Encoded, PretreeAt, Progress, Apply, Bits, Reader.Loaded, Far, Spells;
    ghost var q, s0 := br.Pos(), lens[..];
    ghost var pre := PretreeAt(br.mem, q);
    ts := [];
    err := ReadPretree(br, preLen, preTable);
    if !err {
      ts := ReadTokens(lens, first, last, br, preLen, preTable, pre, old(br.inpos));
      ProgressDone(pre, br.mem, q + 80, br.Pos(), ts, s0, lens[..], first);
    }
  }

  method ReadTokens(lens: array<Byte>, first: nat, last: nat, br: Reader,
                    preLen: array<Byte>, preTable: array<Word>, ghost pre: seq<Byte>, ghost was: nat)
    returns (ghost ts: seq<Token>)
    requires br.Valid() && br.Loaded(was, br.Pos()) && first <= last && last + 50 <= lens.Length && lens != preLen
    requires PRETREE_SYMBOLS <= preLen.Length && pre == preLen[..PRETREE_SYMBOLS]
    requires Usable(preTable[..], pre, PRETREE_BITS)
    modifies br, lens
    ensures br.Valid() && AllValid(ts) && Reaches(ts, first, last)
    ensures br.Loaded(was, Far(pre, old(br.Pos()), ts))
    ensures Progress(pre, br.mem, old(br.Pos()), br.Pos(), ts, old(lens[..]), lens[..], first)
  {
    hide Complete, AllZero, Usable, TokenAt, TokenFar, ApplyToken, Progress, Bits, Far,
      Reader.Valid, Reader.Pos, Reader.Loaded;
    ts := [];
    ghost var q, s0 := br.Pos(), lens[..];
    var x := first;
    ProgressStart(pre, br.mem, q, s0, first);
    FarStart(pre, q);
    while x < last
      invariant br.Valid() && first <= x <= last + 50 && x == first + Total(ts)
      invariant preLen[..PRETREE_SYMBOLS] == pre && AllValid(ts)
      invariant br.Pos() == q + Bits(pre, ts) && br.Loaded(was, Far(pre, q, ts))
      invariant x < last || Reaches(ts, first, last)
      invariant Progress(pre, br.mem, q, br.Pos(), ts, s0, lens[..], first)
    {
      ghost var t;
      ghost var p, s, mid := br.Pos(), lens[..], br.inpos;
      br.LoadedIs(was, Far(pre, q, ts));
      x, t := ReadToken(lens, x, br, preLen, preTable, pre);
      FarStep(pre, q, p, ts, t);
      br.LoadedAgain(was, mid, Far(pre, q, ts), TokenFar(pre, p, t));
      ProgressStep(pre, br.mem, q, p, br.Pos(), ts, t, s0, s, first);
      ts := ts + [t];
    }
  }
}
