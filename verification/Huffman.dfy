/** Looking symbols up in a finished decode table, and the theorem that the
    table-plus-tree lookup is canonical decoding. */
module Huffman {
  import opened Wrappers
  import opened Shifts
  import opened Canonical
  import opened NodeCount
  import opened Forest
  import opened Growth
  import opened DecodeTable

  // Follows the table from entry e, d bits into the window w, until it holds a
  // symbol below maxsyms.
  function Follow(t: seq<Word>, maxsyms: nat, e: nat, w: nat, d: nat): Option<nat>
    decreases 16 - d
  {
    if e >= |t| then None
    else if t[e] < maxsyms then Some(t[e])
    else if d >= 16 then None
    else Follow(t, maxsyms, 2 * t[e] + Shr(w, 15 - d) % 2, w, d + 1)
  }

  function Lookup(t: seq<Word>, maxsyms: nat, nbits: nat, w: nat): Option<nat>
    requires nbits <= 16
  {
    Follow(t, maxsyms, Shr(w, 16 - nbits), w, nbits)
  }

  // Every window is looked up as the symbol whose codeword it begins with.
  ghost predicate DecodesAll(t: seq<Word>, lens: seq<Byte>, nbits: nat)
    requires nbits <= 16
  {
    forall w :: 0 <= w < FULL ==> DecodesAt(t, lens, nbits, w)
  }

  ghost predicate DecodesAt(t: seq<Word>, lens: seq<Byte>, nbits: nat, w: nat)
    requires nbits <= 16
  {
    var r := Lookup(t, |lens|, nbits, w);
    r.Some? && Decodes(lens, r.value, w)
  }

  /** The headline of the lookup: a window that begins with the RFC 1951
      codeword of a symbol is looked up as that symbol, and as no other. */
  lemma LookupFindsCodeword(t: seq<Word>, lens: seq<Byte>, nbits: nat, s: nat, w: nat)
    requires nbits <= 16 && DecodesAll(t, lens, nbits) && w < FULL && Coded(lens, s)
    ensures Lookup(t, |lens|, nbits, w) == Some(s) <==> Shr(w, 16 - lens[s]) == Codeword(lens, s)
  {
    assert DecodesAt(t, lens, nbits, w);
    var r := Lookup(t, |lens|, nbits, w).value;
    DecodesIsPrefix(lens, s, w);
    if Decodes(lens, s, w) {
      DecodesUnique(lens, s, r, w);
    }
  }

  lemma DirectLookup(t: seq<Word>, lens: seq<Byte>, nbits: nat, pos: nat, w: nat)
    requires nbits <= 16 && Direct(t, lens, nbits, pos) && Shr(w, 16 - nbits) < pos
    ensures DecodesAt(t, lens, nbits, w)
  {
    assert Covers(lens, nbits, t[Shr(w, 16 - nbits)], Shr(w, 16 - nbits));
    ShrBounds(w, 16 - nbits);
  }

  lemma DirectComplete(t: seq<Word>, lens: seq<Byte>, nbits: nat, pos: nat)
    requires 1 <= nbits <= 15 && Direct(t, lens, nbits, pos) && pos == Shl(1, nbits)
    ensures DecodesAll(t, lens, nbits)
  {
    FullTable(nbits);
    forall w: nat | w < FULL
      ensures DecodesAt(t, lens, nbits, w)
    {
      Galois(pos, w, 16 - nbits);
      DirectLookup(t, lens, nbits, pos, w);
    }
  }

  // On the way to a long code the entry leads on to a node.
  lemma OnTheWay(t: seq<Word>, f: Forest, b: Build, s: nat, w: nat, e: nat, d: nat)
    requires Linked(t, f, b.half, b.nbits) && b.nbits <= 16
    requires s in f.loc && PlacedAt(t, f, b.half, b.nbits, b.lens, FULL, s) && Decodes(b.lens, s, w)
    requires b.nbits <= d < b.lens[s] && e < 2 * b.half + 2 * |f.lab|
    requires Label(f, b.half, b.nbits, e) == Top(w, d)
    ensures b.half <= t[e]
  {
    hide Shl, Shr, Before, NodesOk;
    var l, cs := b.lens[s], CodeStart(b.lens, s);
    CommonTop(b.lens, s, w, d);
    var k := ChainUp(t, f, b.half, b.nbits, f.loc[s], d);
    ShrTwice(cs, 16 - l, l - d);
    NodeIs(t, f, b.half, b.nbits, k);
    LabelInjective(t, f, b.half, b.nbits, e, f.par[k]);
  }

  lemma NodeIs(t: seq<Word>, f: Forest, half: nat, nbits: nat, k: nat)
    requires Linked(t, f, half, nbits) && k < |f.lab|
    ensures |f.par| == |f.lab| && NodeAt(t, f, half, nbits, k)
  {
  }

  // A window that begins with a codeword has its shorter prefixes.
  lemma CommonTop(lens: seq<Byte>, s: nat, w: nat, d: nat)
    requires Decodes(lens, s, w) && d <= lens[s]
    ensures Shr(CodeStart(lens, s), 16 - d) == Shr(w, 16 - d)
  {
    hide Shl, Shr, Before;
    var l, cs := lens[s], CodeStart(lens, s);
    StartAligned(lens, l, s);
    ShrUnique(Shr(cs, 16 - l), w, 16 - l);
    ShrTwice(w, 16 - l, l - d);
    ShrTwice(cs, 16 - l, l - d);
  }

  lemma {:induction false} FollowFinds(t: seq<Word>, f: Forest, b: Build, s: nat, w: nat, e: nat, d: nat)
    requires Linked(t, f, b.half, b.nbits) && |b.lens| <= b.half && b.nbits <= 16
    requires s in f.loc && PlacedAt(t, f, b.half, b.nbits, b.lens, FULL, s) && Decodes(b.lens, s, w)
    requires b.nbits <= d <= b.lens[s] && e < 2 * b.half + 2 * |f.lab|
    requires Label(f, b.half, b.nbits, e) == Top(w, d)
    ensures Follow(t, |b.lens|, e, w, d) == Some(s)
    decreases 16 - d
  {
    hide Shl, Shr, Before, Linked, Decodes, Label;
    if d == b.lens[s] {
      CommonTop(b.lens, s, w, d);
      LabelInjective(t, f, b.half, b.nbits, e, f.loc[s]);
      LinkedSize(t, f, b.half, b.nbits);
    } else {
      OneDown(t, f, b, s, w, e, d);
      FollowFinds(t, f, b, s, w, 2 * t[e] + Shr(w, 15 - d) % 2, d + 1);
    }
  }

  lemma OneDown(t: seq<Word>, f: Forest, b: Build, s: nat, w: nat, e: nat, d: nat)
    requires Linked(t, f, b.half, b.nbits) && |b.lens| <= b.half && b.nbits <= 16
    requires s in f.loc && PlacedAt(t, f, b.half, b.nbits, b.lens, FULL, s) && Decodes(b.lens, s, w)
    requires b.nbits <= d < b.lens[s] && e < 2 * b.half + 2 * |f.lab|
    requires Label(f, b.half, b.nbits, e) == Top(w, d)
    ensures e < |t| && b.half <= t[e] && d < 16
    ensures var e' := 2 * t[e] + Shr(w, 15 - d) % 2;
      e' < 2 * b.half + 2 * |f.lab| && Label(f, b.half, b.nbits, e') == Top(w, d + 1)
  {
    hide Shl, Shr, Before, NodesOk;
    OnTheWay(t, f, b, s, w, e, d);
    WalkDown(t, f, b, d, e, w);
  }

  lemma LongLookup(t: seq<Word>, f: Forest, lens: seq<Byte>, nbits: nat, first: nat, w: nat)
    requires 1 <= nbits <= 15 && |lens| <= Shl(1, nbits - 1) && w < FULL
    requires Finished(t, f, lens, nbits, first) && Kraft(lens, 16) == FULL
    requires Shl(first, 16 - nbits) == Kraft(lens, nbits)
    requires first <= Shr(w, 16 - nbits)
    ensures DecodesAt(t, lens, nbits, w)
  {
    var b := Build(lens, Shl(1, nbits - 1), nbits, first, 16, |lens|);
    var x := Shr(w, 16 - nbits);
    var s := FindSymbol(lens, 16, |lens|, w);
    Galois(first, w, 16 - nbits);
    if lens[s] <= nbits {
      EarlierEnds(lens, s, nbits, |lens|);
      assert false;
    }
    assert PlacedAt(t, f, b.half, nbits, lens, FULL, s);
    HalfSmall(nbits);
    FullTable(nbits);
    Galois(2 * b.half, w, 16 - nbits);
    FollowFinds(t, f, b, s, w, x, nbits);
  }

  lemma LongComplete(t: seq<Word>, f: Forest, lens: seq<Byte>, nbits: nat, first: nat)
    requires 1 <= nbits <= 15 && |lens| <= Shl(1, nbits - 1)
    requires Direct(t, lens, nbits, first)
    requires Finished(t, f, lens, nbits, first) && Kraft(lens, 16) == FULL
    requires Shl(first, 16 - nbits) == Kraft(lens, nbits)
    ensures DecodesAll(t, lens, nbits)
  {
    forall w: nat | w < FULL
      ensures DecodesAt(t, lens, nbits, w)
    {
      if Shr(w, 16 - nbits) < first {
        DirectLookup(t, lens, nbits, first, w);
      } else {
        LongLookup(t, f, lens, nbits, first, w);
      }
    }
  }

  // The length vectors make_decode_table accepts.
  ghost predicate Accepted(lens: seq<Byte>, nbits: nat)
    requires 1 <= nbits <= 15
  {
    Complete(lens, nbits) || AllZero(lens)
  }

  // The codes of at most nbits bits, or all codes together, fill the space.
  ghost predicate Complete(lens: seq<Byte>, nbits: nat)
    requires 1 <= nbits <= 15
  {
    Kraft(lens, nbits) == FULL || Kraft(lens, 16) == FULL
  }

  ghost predicate AllZero(lens: seq<Byte>) {
    forall s :: 0 <= s < |lens| ==> lens[s] == 0
  }

  /** A vector is accepted exactly if its codes of at most nbits bits, or all its codes,
      share out the 65536 windows, or if all its lengths are zero. */
  lemma AcceptedIff(lens: seq<Byte>, nbits: nat)
    requires 1 <= nbits <= 15
    ensures Accepted(lens, nbits) <==>
      || Shares(lens, |lens|, nbits) == 65536
      || Shares(lens, |lens|, 16) == 65536
      || (forall s :: 0 <= s < |lens| ==> lens[s] == 0)
  {
    KraftIsShares(lens, nbits);
    KraftIsShares(lens, 16);
  }

  lemma {:induction false} ZeroKraft(lens: seq<Byte>, l: nat, n: nat)
    requires AllZero(lens) && 1 <= l <= 16 && n <= |lens|
    ensures Before(lens, l, n) == 0
    decreases l, n
  {
    if n > 0 {
      ZeroKraft(lens, l, n - 1);
    } else if l > 1 {
      ZeroKraft(lens, l - 1, |lens|);
    }
  }

  lemma LocCount(f: Forest, lens: seq<Byte>)
    requires forall s: nat :: s in f.loc ==> s < |lens|
    ensures |f.loc| <= |lens|
  {
    SmallSet(f.loc.Keys, |lens|);
  }

  lemma EmptyTable(t: seq<Word>, f: Forest, lens: seq<Byte>, nbits: nat, first: nat)
    requires 1 <= nbits <= 15 && AllZero(lens) && |lens| <= Shl(1, nbits - 1)
    requires Finished(t, f, lens, nbits, first) && Settled(f, first, lens, nbits)
    requires Shl(first, 16 - nbits) == Kraft(lens, nbits)
    ensures Shl(1, nbits) <= |t| && forall e :: 0 <= e < Shl(1, nbits) ==> t[e] == 0
  {
    ZeroKraft(lens, nbits, |lens|);
    ZeroKraft(lens, 16, |lens|);
    HalfSmall(nbits);
    if first > 0 {
      ShlPositive(first, 16 - nbits);
    }
    assert f.loc == map[];
    ShlZero(16 - nbits);
    OpenAfter(0, nbits);
    forall e | 0 <= e < Shl(1, nbits)
      ensures t[e] == 0
    {
      assert HeldAt(t, f, Shl(1, nbits - 1), first, e);
    }
  }

  // ---------- room ----------

  // A direct entry or one of a node leads on to node k.
  ghost predicate Refers(t: seq<Word>, k: nat) {
    exists e :: 0 <= e < 2 * k && e < |t| && t[e] == k
  }

  lemma LongsPlaced(f: Forest, lens: seq<Byte>, nbits: nat)
    requires forall s: nat :: s in f.loc <==> Coded(lens, s) && nbits < lens[s]
    requires Kraft(lens, 16) <= FULL
    ensures |f.loc| == |Early(lens, nbits)|
  {
    AllEarly(lens, nbits);
    assert f.loc.Keys == Early(lens, nbits);
  }

  // If the codes fit, they all begin before the end.
  lemma AllEarly(lens: seq<Byte>, nbits: nat)
    requires Kraft(lens, 16) <= FULL
    ensures forall s: nat :: s in Early(lens, nbits) <==> Coded(lens, s) && nbits < lens[s]
  {
    hide Before;
    forall s: nat | Coded(lens, s)
      ensures CodeStart(lens, s) < FULL
    {
      OnePast(lens, s);
      KraftIs(lens, 16);
      BeforeMono(lens, lens[s], s + 1, 16, |lens|);
    }
  }

  lemma NodesIs(t: seq<Word>, f: Forest, lens: seq<Byte>, nbits: nat, first: nat)
    requires 1 <= nbits <= 15 && first < Shl(1, nbits) && |lens| <= Shl(1, nbits - 1)
    requires Finished(t, f, lens, nbits, first) && Settled(f, first, lens, nbits)
    requires Shl(first, 16 - nbits) == Kraft(lens, nbits)
    ensures Fits(lens, nbits) && |f.lab| == Nodes(lens, nbits) == RoomNeeded(lens, nbits)
    ensures |f.lab| > 0 ==> Refers(t, Shl(1, nbits - 1) + |f.lab| - 1)
  {
    hide Open, Shl, Shr, Placed, Early;
    OpenAfter(first, nbits);
    LongsPlaced(f, lens, nbits);
    HalfSmall(nbits);
    BelowEnd(lens, nbits, first);
    RoomIfFits(lens, nbits);
    if |f.lab| > 0 {
      NodeIs(t, f, Shl(1, nbits - 1), nbits, |f.lab| - 1);
      LinkedSize(t, f, Shl(1, nbits - 1), nbits);
    }
  }

  lemma BelowEnd(lens: seq<Byte>, nbits: nat, first: nat)
    requires 1 <= nbits <= 15 && first < Shl(1, nbits) && Shl(first, 16 - nbits) == Kraft(lens, nbits)
    ensures Kraft(lens, nbits) < FULL
  {
    FullTable(nbits);
    ShlOrder(Shl(1, nbits), first, 16 - nbits);
  }

  lemma LinkedSize(t: seq<Word>, f: Forest, half: nat, nbits: nat)
    requires Linked(t, f, half, nbits)
    ensures 2 * half + 2 * |f.lab| <= |t| && |f.par| == |f.lab|
  {
  }

  // Where the short codes fill everything there is nothing to grow.
  lemma NoNodes(lens: seq<Byte>, nbits: nat)
    requires 1 <= nbits <= 15 && Kraft(lens, nbits) == FULL
    ensures Nodes(lens, nbits) == 0
  {
    hide Open, Before;
    BeforeMono(lens, nbits, |lens|, 16, |lens|);
    forall s: nat | s < |lens| && nbits < lens[s] <= 16
      ensures CodeStart(lens, s) >= FULL
    {
      BeforeMono(lens, nbits, |lens|, lens[s], s);
    }
    assert Early(lens, nbits) == {};
  }

  /** The room that the source declares is enough for every vector that is accepted. */
  lemma DeclaredRoom(lens: seq<Byte>, nbits: nat)
    requires 1 <= nbits <= 15 && Accepted(lens, nbits)
    ensures RoomNeeded(lens, nbits) <= |lens|
  {
    hide Open, Before, Shl, Early, OverLevels;
    if Kraft(lens, nbits) < FULL {
      if Kraft(lens, 16) != FULL {
        ZeroKraft(lens, nbits, |lens|);
        ZeroKraft(lens, 16, |lens|);
      }
      NoneOverruns(lens, nbits);
      OpenAtEnd(16 - nbits);
      EarlyCount(lens, nbits);
    }
  }

  lemma {:induction false} SameLengths(lens: seq<Byte>, l: nat, n: nat)
    requires (forall s :: 0 <= s < |lens| ==> lens[s] == 15) && 1 <= l <= 16 && n <= |lens|
    ensures Before(lens, l, n) == if l < 15 then 0 else if l == 15 then 2 * n else 2 * |lens|
    decreases l, n
  {
    assert Width(15) == 2;
    hide Width;
    if n > 0 {
      SameLengths(lens, l, n - 1);
    } else if l > 1 {
      SameLengths(lens, l - 1, |lens|);
    }
  }

  /** For a rejected vector it need not be: twenty codes of length 15 take 25 nodes in
      the pretree's table, which is declared with room for twenty. */
  lemma RoomRunsOut(lens: seq<Byte>)
    requires |lens| == 20 && forall s :: 0 <= s < |lens| ==> lens[s] == 15
    ensures Fits(lens, 6) && !Accepted(lens, 6) && Nodes(lens, 6) == 25
  {
    SameLengths(lens, 6, 20);
    SameLengths(lens, 16, 20);
    assert lens[0] != 0;
    hide Before, Open, Early, AllZero;
    OpenValues();
    AllLong(lens);
  }

  lemma AllLong(lens: seq<Byte>)
    requires |lens| == 20 && forall s :: 0 <= s < |lens| ==> lens[s] == 15
    requires Kraft(lens, 16) <= FULL
    ensures |Early(lens, 6)| == 20
  {
    hide Early, CodeStart, Kraft, Below;
    AllEarly(lens, 6);
    forall s: nat
      ensures s in Early(lens, 6) <==> s < 20
    {
      assert s < 20 ==> lens[s] == 15;
    }
    assert Early(lens, 6) == Below(20);
  }

  ghost function Below(n: nat): (r: set<nat>)
    ensures |r| == n && forall s: nat :: s in r <==> s < n
  {
    if n == 0 then {} else Below(n - 1) + {n - 1}
  }

  // Of 65496 windows, 63 whole direct entries and six smaller subtrees.
  lemma OpenValues()
    ensures Open(65496, 10) == 69 && Open(65536, 10) == 64
  {
    hide Open;
    OpenHalf(65496, 10);
    OpenHalf(32748, 9);
    OpenHalf(16374, 8);
    OpenHalf(8187, 7);
    OpenHalf(4093, 6);
    OpenHalf(2046, 5);
    OpenHalf(1023, 4);
    OpenHalf(511, 3);
    OpenHalf(255, 2);
    OpenHalf(127, 1);
    OpenNone(63);
    ShlZero(10);
    OpenAfter(0, 6);
    assert Shl(1, 6) == Shl(4, 4) == Shl(16, 2) == 64;
  }

  /** Builds the decode table for nsyms code lengths; true means error.  Where the
      codes fit, the table needs and uses room for just the nodes they take, so the
      2^nbits + 2*nsyms entries that the source declares are enough for every vector
      it accepts. */
  method MakeDecodeTable(nsyms: nat, nbits: nat, length: array<Byte>, table: array<Word>) returns (err: bool)
    requires 1 <= nbits <= 15 && nsyms <= length.Length && nsyms <= Shl(1, nbits - 1)
    requires Shl(1, nbits) <= table.Length
    requires Shl(1, nbits) + 2 * RoomNeeded(length[..nsyms], nbits) <= table.Length
    modifies table
    ensures !err <==> Accepted(length[..nsyms], nbits)
    ensures Complete(length[..nsyms], nbits) ==> DecodesAll(table[..], length[..nsyms], nbits)
    ensures Complete(length[..nsyms], nbits) ==>
      forall e :: Shl(1, nbits) + 2 * nsyms <= e < table.Length ==> table[e] == old(table[e])
    ensures AllZero(length[..nsyms]) ==> forall e :: 0 <= e < Shl(1, nbits) ==> table[e] == 0
    ensures forall e :: 0 <= e < table.Length && Shl(1, nbits) + 2 * RoomNeeded(length[..nsyms], nbits) <= e ==>
      table[e] == old(table[e])
    ensures Fits(length[..nsyms], nbits) ==>
      RoomNeeded(length[..nsyms], nbits) == Nodes(length[..nsyms], nbits)
    ensures Fits(length[..nsyms], nbits) && Nodes(length[..nsyms], nbits) > 0 ==>
      Refers(table[..], Shl(1, nbits - 1) + Nodes(length[..nsyms], nbits) - 1)
  {
    hide Before, Direct, Finished, Settled, DecodesAll, Nodes, Refers, Kraft, Open;
    ghost var lens := length[..nsyms];
    HalfSmall(nbits);
    FullTable(nbits);
    KraftGrows(lens, nbits);
    var over, pos := FillDirect(nsyms, nbits, length, table);
    if over {
      return true;
    }
    ghost var first := pos;
    var tableMask := Shl(1, nbits);
    ShlOrder(pos, tableMask, 16 - nbits);
    ShlOrder(tableMask, pos, 16 - nbits);
    if pos == tableMask {
      DirectComplete(table[..], lens, nbits, pos);
      NoNodes(lens, nbits);
      assert forall e :: tableMask <= e < table.Length ==> table[e] == old(table[e]) by {
        SliceSame(table[..], old(table[..]), tableMask);
      }
    } else {
      ghost var t := table[..];
      DirectSymbols(t, lens, nbits, pos);
      ghost var f;
      SliceSame(t, old(table[..]), Shl(1, nbits));
      over, pos, f := FillLong(nsyms, nbits, length, table, pos);
      if over {
        return true;
      }
      DirectKept(t, table[..], lens, nbits, first);
      AfterLong(table[..], f, lens, nbits, first);
      NodesIs(table[..], f, lens, nbits, first);
      tableMask := Shl(1, nbits + 16);
      FullIsShl();
      ShlTwice(1, 16, nbits);
      ShlOrder(Kraft(lens, 16), FULL, nbits);
      ShlOrder(FULL, Kraft(lens, 16), nbits);
      assert pos == tableMask <==> Kraft(lens, 16) == FULL;
    }
    if pos == tableMask {
      return false;
    }
    for sym := 0 to nsyms
      invariant forall s :: 0 <= s < sym ==> length[s] == 0
    {
      if length[sym] != 0 {
        assert lens[sym] != 0;
        return true;
      }
    }
    return false;
  }

  lemma KraftGrows(lens: seq<Byte>, nbits: nat)
    requires 1 <= nbits <= 15
    ensures Kraft(lens, nbits) <= Kraft(lens, 16)
    ensures AllZero(lens) ==> Kraft(lens, nbits) == 0 && Kraft(lens, 16) == 0
  {
    BeforeMono(lens, nbits, |lens|, 16, |lens|);
    if AllZero(lens) {
      ZeroKraft(lens, nbits, |lens|);
      ZeroKraft(lens, 16, |lens|);
    }
  }

  lemma SliceSame(t: seq<Word>, u: seq<Word>, n: nat)
    requires |t| == |u| && n <= |t| && t[n..] == u[n..]
    ensures forall e :: n <= e < |t| ==> t[e] == u[e]
  {
    forall e | n <= e < |t|
      ensures t[e] == u[e]
    {
      assert t[e] == t[n..][e - n] && u[e] == u[n..][e - n];
    }
  }

  lemma DirectSymbols(t: seq<Word>, lens: seq<Byte>, nbits: nat, pos: nat)
    requires nbits <= 16 && Direct(t, lens, nbits, pos)
    ensures pos <= |t| && forall e :: 0 <= e < pos ==> t[e] < |lens|
  {
    forall e | 0 <= e < pos
      ensures t[e] < |lens|
    {
      assert Covers(lens, nbits, t[e], e);
    }
  }

  lemma DirectKept(t: seq<Word>, u: seq<Word>, lens: seq<Byte>, nbits: nat, pos: nat)
    requires nbits <= 16 && Direct(t, lens, nbits, pos) && |u| == |t|
    requires forall e :: 0 <= e < pos ==> u[e] == t[e]
    ensures Direct(u, lens, nbits, pos)
  {
  }

  lemma AfterLong(t: seq<Word>, f: Forest, lens: seq<Byte>, nbits: nat, first: nat)
    requires 1 <= nbits <= 15 && |lens| <= Shl(1, nbits - 1)
    requires Direct(t, lens, nbits, first) && Shl(first, 16 - nbits) == Kraft(lens, nbits)
    requires Finished(t, f, lens, nbits, first) && Settled(f, first, lens, nbits)
    ensures Kraft(lens, 16) == FULL ==> DecodesAll(t, lens, nbits) && |f.lab| <= |lens|
    ensures AllZero(lens) ==> Shl(1, nbits) <= |t| && forall e :: 0 <= e < Shl(1, nbits) ==> t[e] == 0
  {
    if Kraft(lens, 16) == FULL {
      LongComplete(t, f, lens, nbits, first);
      LocCount(f, lens);
      OpenAtEnd(16 - nbits);
      FullTable(nbits);
      BeforeMono(lens, nbits, |lens|, 16, |lens|);
      ShlOrder(first, Shl(1, nbits), 16 - nbits);
    }
    if AllZero(lens) {
      EmptyTable(t, f, lens, nbits, first);
    }
  }
}
