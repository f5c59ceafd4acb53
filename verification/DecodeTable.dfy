/** make_decode_table: the fast Huffman table built from code lengths. */
module DecodeTable {
  import opened Shifts
  import opened Canonical
  import opened NodeCount
  import opened Forest
  import opened Growth

  // Each of the first pos direct entries holds the symbol whose code covers it.
  ghost predicate Direct(t: seq<Word>, lens: seq<Byte>, nbits: nat, pos: nat)
    requires nbits <= 16
  {
    pos <= |t| && forall x :: 0 <= x < pos ==> Covers(lens, nbits, t[x], x)
  }

  ghost predicate Covers(lens: seq<Byte>, nbits: nat, s: nat, x: nat)
    requires nbits <= 16
  {
    && Coded(lens, s) && lens[s] <= nbits
    && CodeStart(lens, s) <= Shl(x, 16 - nbits)
    && Shl(x + 1, 16 - nbits) <= CodeStart(lens, s) + Width(lens[s])
  }

  lemma WidthShl(l: nat, nbits: nat)
    requires l <= nbits <= 16
    ensures Shl(Shl(1, nbits - l), 16 - nbits) == Width(l)
  {
    ShlTwice(1, nbits - l, 16 - nbits);
  }

  lemma CoversBlock(lens: seq<Byte>, nbits: nat, s: nat, leaf: nat, x: nat)
    requires nbits <= 16 && Coded(lens, s) && lens[s] <= nbits
    requires Shl(leaf, 16 - nbits) == CodeStart(lens, s)
    requires leaf <= x < leaf + Shl(1, nbits - lens[s])
    ensures Covers(lens, nbits, s, x)
  {
    var m := Shl(1, nbits - lens[s]);
    ShlMono(leaf, x, 16 - nbits);
    ShlMono(x + 1, leaf + m, 16 - nbits);
    ShlAdd(leaf, m, 16 - nbits);
    WidthShl(lens[s], nbits);
  }

  // The entries of one code short enough for a direct mapping.
  method FillCode(sym: Word, bitNum: nat, nbits: nat, bitMask: nat, leaf: nat, table: array<Word>,
                  ghost lens: seq<Byte>)
    returns (over: bool, pos: nat)
    requires 1 <= bitNum <= nbits <= 15 && sym < |lens| && lens[sym] == bitNum
    requires Shl(1, nbits) <= table.Length && bitMask == Shl(1, nbits - bitNum)
    requires leaf <= Shl(1, nbits) && Shl(leaf, 16 - nbits) == Before(lens, bitNum, sym)
    requires Direct(table[..], lens, nbits, leaf)
    modifies table
    ensures pos == leaf + bitMask && Shl(pos, 16 - nbits) == Before(lens, bitNum, sym + 1)
    ensures over <==> pos > Shl(1, nbits)
    ensures over ==> Kraft(lens, nbits) > FULL
    ensures !over ==> Direct(table[..], lens, nbits, pos)
    ensures table[Shl(1, nbits)..] == old(table[Shl(1, nbits)..])
  {
    var tableMask := Shl(1, nbits);
    WidthShl(bitNum, nbits);
    pos := leaf + bitMask;
    ShlAdd(leaf, bitMask, 16 - nbits);
    over := pos > tableMask;
    hide Shl, Before;
    if over {
      PastTheEnd(lens, bitNum, sym, nbits, pos);
      return;
    }
    FillRun(table, leaf, bitMask, sym);
    hide Covers;
    forall x | 0 <= x < pos
      ensures Covers(lens, nbits, table[x], x)
    {
      if x >= leaf {
        CoversBlock(lens, nbits, sym, leaf, x);
      }
    }
  }

  lemma PastTheEnd(lens: seq<Byte>, bitNum: nat, sym: nat, nbits: nat, pos: nat)
    requires 1 <= bitNum <= nbits <= 15 && sym < |lens|
    requires pos > Shl(1, nbits) && Shl(pos, 16 - nbits) == Before(lens, bitNum, sym + 1)
    ensures Kraft(lens, nbits) > FULL
  {
    hide Shl, Before;
    FullTable(nbits);
    var tableMask: nat := Shl(1, nbits);
    ShlAdd(tableMask, pos - tableMask, 16 - nbits);
    ShlPositive(pos - tableMask, 16 - nbits);
    BeforeMono(lens, bitNum, sym + 1, nbits, |lens|);
  }

  // Fills the entries of the codes short enough for a direct mapping.
  method FillDirect(nsyms: nat, nbits: nat, length: array<Byte>, table: array<Word>)
    returns (over: bool, pos: nat)
    requires 1 <= nbits <= 15 && nsyms <= length.Length && nsyms <= 65536
    requires Shl(1, nbits) <= table.Length
    modifies table
    ensures over <==> Kraft(length[..nsyms], nbits) > FULL
    ensures !over ==> pos <= Shl(1, nbits) && Shl(pos, 16 - nbits) == Kraft(length[..nsyms], nbits)
    ensures !over ==> Direct(table[..], length[..nsyms], nbits, pos)
    ensures table[Shl(1, nbits)..] == old(table[Shl(1, nbits)..])
  {
    ghost var lens := length[..nsyms];
    var tableMask := Shl(1, nbits);
    var bitMask := tableMask / 2;
    var bitNum := 1;
    pos := 0;
    ShlZero(16 - nbits);
    ShlDouble(1, nbits - 1);
    FullTable(nbits);
    while bitNum <= nbits
      invariant 1 <= bitNum <= nbits + 1 && pos <= tableMask
      invariant bitMask == if bitNum <= nbits then Shl(1, nbits - bitNum) else 0
      invariant Shl(pos, 16 - nbits) == if bitNum == 1 then 0 else Kraft(lens, bitNum - 1)
      invariant Direct(table[..], lens, nbits, pos)
      invariant length[..nsyms] == lens
      invariant table[tableMask..] == old(table[Shl(1, nbits)..])
    {
      for sym := 0 to nsyms
        invariant pos <= tableMask
        invariant Shl(pos, 16 - nbits) == Before(lens, bitNum, sym)
        invariant Direct(table[..], lens, nbits, pos)
        invariant length[..nsyms] == lens
        invariant table[tableMask..] == old(table[Shl(1, nbits)..])
      {
        if length[sym] == bitNum {
          over, pos := FillCode(sym, bitNum, nbits, bitMask, pos, table, lens);
          if over {
            return;
          }
        }
      }
      if bitNum < nbits {
        ShlDouble(1, nbits - bitNum - 1);
      }
      bitMask := bitMask / 2;
      bitNum := bitNum + 1;
    }
    ShlMono(pos, tableMask, 16 - nbits);
    return false, pos;
  }

  lemma FullTable(nbits: nat)
    requires nbits <= 16
    ensures Shl(Shl(1, nbits), 16 - nbits) == FULL
  {
    ShlTwice(1, nbits, 16 - nbits);
    FullIsShl();
  }

  method FillRun(table: array<Word>, start: nat, count: nat, sym: Word)
    requires start + count <= table.Length
    modifies table
    ensures forall x :: start <= x < start + count ==> table[x] == sym
    ensures forall x :: 0 <= x < table.Length && !(start <= x < start + count) ==> table[x] == old(table[x])
  {
    var fill, leaf := count, start;
    while fill > 0
      invariant fill + leaf == start + count && start <= leaf
      invariant forall x :: start <= x < leaf ==> table[x] == sym
      invariant forall x :: 0 <= x < table.Length && !(start <= x < leaf) ==> table[x] == old(table[x])
    {
      fill := fill - 1;
      table[leaf] := sym;
      leaf := leaf + 1;
    }
  }

  // What the overflow area holds when the next code is about to be placed.
  ghost predicate Ready(t: seq<Word>, f: Forest, b: Build)
    requires b.Valid()
  {
    && Linked(t, f, b.half, b.nbits)
    && Placed(t, f, b.half, b.nbits, b.first, b.lens, b.Pos())
    && Older(f, b.Pos(), b.nbits)
    && (forall s :: s in f.loc <==> b.Done(s))
  }

  // The nodes the next code adds.
  ghost function Need(b: Build): nat
    requires b.Valid()
  {
    var z := Zeros(FULL - b.Pos(), 16 - b.nbits);
    if b.Pos() == FULL then b.l - b.nbits else if z < 16 - b.l then 0 else z - (16 - b.l)
  }

  ghost function NeedSoFar(b: Build, d: nat): nat
    requires b.Valid()
  {
    var z := Zeros(FULL - b.Pos(), 16 - b.nbits);
    if d + z < 16 then 0 else d + z - 16
  }

  lemma AllocIffNeeded(t: seq<Word>, f: Forest, b: Build, d: nat, leaf: nat)
    requires b.Valid() && Walking(t, f, b, d, leaf) && d < b.l && b.Pos() < FULL
    ensures t[leaf] == 0 <==> 16 - d <= Zeros(FULL - b.Pos(), 16 - b.nbits)
  {
    AllocIffAligned(t, f, b, d, leaf);
    AlignedRest(b.Pos(), 16 - d);
    ZerosIff(FULL - b.Pos(), 16 - d, 16 - b.nbits);
  }

  lemma RootOnPath(b: Build)
    requires b.Valid() && b.Pos() <= FULL
    ensures Shr(b.Pos(), 16 - b.nbits) <= 2 * b.half
    ensures b.Pos() < FULL <==> Shr(b.Pos(), 16 - b.nbits) < 2 * b.half
  {
    ShlDouble(1, b.nbits - 1);
    FullTable(b.nbits);
    Galois(2 * b.half, b.Pos(), 16 - b.nbits);
    Galois(2 * b.half + 1, b.Pos(), 16 - b.nbits);
    ShlAdd(2 * b.half, 1, 16 - b.nbits);
    ShlPositive(1, 16 - b.nbits);
  }

  // One allocation: two empty entries, and the entry that leads to them.
  method Allocate(table: array<Word>, leaf: nat, nextSymbol: nat)
    requires Bounded(table[..], nextSymbol) && leaf < 2 * nextSymbol
    requires 2 * nextSymbol + 1 < table.Length && nextSymbol < 65536
    modifies table
    ensures table[..] == Grown(old(table[..]), nextSymbol, leaf)
  {
    table[2 * nextSymbol] := 0;
    table[2 * nextSymbol + 1] := 0;
    table[leaf] := nextSymbol;
  }

  ghost function StepForest(t: seq<Word>, f: Forest, b: Build, leaf: nat): Forest
    requires leaf < 2 * b.half + 2 * |f.lab| && leaf < |t|
  {
    if t[leaf] == 0 then GrownForest(f, b.half, b.nbits, leaf) else f
  }

  // One more bit of the way down, in the case that the entry is empty.
  lemma StepAlloc(t: seq<Word>, f: Forest, b: Build, d: nat, leaf: nat)
    requires b.Valid() && Walking(t, f, b, d, leaf) && d < b.l && t[leaf] == 0
    requires 2 * b.half + 2 * |f.lab| + 1 < |t| && b.half + |f.lab| < 65536
    ensures var t', g := Grown(t, b.half + |f.lab|, leaf), GrownForest(f, b.half, b.nbits, leaf);
      Walking(t', g, b, d + 1, 2 * t'[leaf] + Shr(b.Pos(), 15 - d) % 2)
  {
    hide Linked, Placed, Older, Shl, Shr;
    WalkAlloc(t, f, b, d, leaf);
    var t', g := Grown(t, b.half + |f.lab|, leaf), GrownForest(f, b.half, b.nbits, leaf);
    assert Linked(t', g, b.half, b.nbits);
    WalkDown(t', g, b, d, leaf, b.Pos());
  }

  // ... and in the case that it leads on.
  lemma StepFollow(t: seq<Word>, f: Forest, b: Build, d: nat, leaf: nat)
    requires b.Valid() && Walking(t, f, b, d, leaf) && d < b.l && b.half <= t[leaf]
    ensures Walking(t, f, b, d + 1, 2 * t[leaf] + Shr(b.Pos(), 15 - d) % 2)
  {
    hide Linked, Placed, Shl, Shr;
    WalkDown(t, f, b, d, leaf, b.Pos());
  }

  lemma WalkStep(t: seq<Word>, f: Forest, b: Build, d: nat, leaf: nat)
    requires b.Valid() && Walking(t, f, b, d, leaf) && d < b.l && b.Pos() < FULL
    requires t[leaf] == 0 ==>
      2 * b.half + 2 * |f.lab| + 1 < |t| && b.half + |f.lab| < 65536
    ensures leaf < |t| && b.first <= leaf
    ensures t[leaf] == 0 ==> NeedSoFar(b, d + 1) == NeedSoFar(b, d) + 1
    ensures t[leaf] != 0 ==> NeedSoFar(b, d + 1) == NeedSoFar(b, d)
    ensures t[leaf] == 0 ==>
      2 * b.half + 2 * |f.lab| + 1 < |t| && b.half + |f.lab| < 65536
      && var t', g := Grown(t, b.half + |f.lab|, leaf), GrownForest(f, b.half, b.nbits, leaf);
      Walking(t', g, b, d + 1, 2 * t'[leaf] + Shr(b.Pos(), 15 - d) % 2)
    ensures t[leaf] != 0 ==> Walking(t, f, b, d + 1, 2 * t[leaf] + Shr(b.Pos(), 15 - d) % 2)
  {
    hide Placed, Older, NodesOk;
    EntryOnPath(t, f, b, d, leaf);
    FirstNotOnPath(f, b, d, leaf);
    AllocIffNeeded(t, f, b, d, leaf);
    if t[leaf] == 0 {
      StepAlloc(t, f, b, d, leaf);
    } else {
      StepFollow(t, f, b, d, leaf);
    }
  }

  lemma NextValid(b: Build)
    requires b.Valid() && b.Pos() < FULL && b.n < |b.lens| && b.lens[b.n] == b.l
    ensures b.(n := b.n + 1).Valid() && b.(n := b.n + 1).Pos() == b.Pos() + Width(b.l)
  {
    hide Shl, Shr;
    StartAligned(b.lens, b.l, b.n);
    var k := 16 - b.l;
    Galois(Shr(b.Pos(), k) + 1, FULL, k);
    ShlTwice(1, b.l, k);
    FullIsShl();
    ShlAdd(Shr(b.Pos(), k), 1, k);
    ShlOrder(Shr(b.Pos(), k), Shl(1, b.l), k);
    ShlOrder(Shr(b.Pos(), k) + 1, Shl(1, b.l), k);
    WidthPositive(b.l);
  }

  // At the full depth the symbol goes into the free entry.
  lemma WalkEnds(t: seq<Word>, f: Forest, b: Build, leaf: nat)
    requires b.Valid() && Walking(t, f, b, b.l, leaf) && b.Pos() < FULL
    requires b.n < |b.lens| && b.lens[b.n] == b.l && b.half < 65536
    ensures b.(n := b.n + 1).Valid() && b.n !in f.loc && b.first <= leaf
    ensures Ready(t[leaf := b.n], Hung(f, b.n, leaf), b.(n := b.n + 1))
  {
    hide Shl, Shr, Before, Placed, NodesOk, Label;
    NextValid(b);
    LeafFree(t, f, b, leaf);
    FirstNotOnPath(f, b, b.l, leaf);
    NotYetPlaced(t, f, b, leaf);
    PlaceLinked(t, f, b.half, b.nbits, leaf, b.n);
    PlacePlaced(t, f, b, leaf);
    WidthPositive(b.l);
    OlderNext(f, b.Pos(), b.l, b.Pos() + Width(b.l), b.nbits);
  }

  // One more bit of the way down: allocates what is missing, then goes left or
  // right.  While the codes fit (ok) the walk keeps its invariant.
  method Descend(pos: nat, fill: nat, table: array<Word>, leaf: nat, next: nat,
                 ghost b: Build, ghost f: Forest, ghost ok: bool)
    returns (leaf': nat, next': nat, ghost g: Forest)
    requires b.Valid() && fill < b.l - b.nbits && pos == Shl(b.Pos(), b.nbits)
    requires Bounded(table[..], next) && leaf < 2 * next
    requires table[leaf] == 0 ==> 2 * next + 1 < table.Length && next < 65536
    requires ok ==> b.Pos() < FULL && next == b.half + |f.lab| && Walking(table[..], f, b, b.nbits + fill, leaf)
    modifies table
    ensures next <= next' <= next + 1 && Bounded(table[..], next') && leaf' < 2 * next'
    ensures forall e :: 2 * next' <= e < table.Length ==> table[e] == old(table[e])
    ensures ok ==> forall e :: 0 <= e < b.first && e < table.Length ==> table[e] == old(table[e])
    ensures ok ==> Walking(table[..], g, b, b.nbits + fill + 1, leaf') && g.loc == f.loc
    ensures ok ==> next' == b.half + |g.lab|
    ensures ok ==> next' - next == NeedSoFar(b, b.nbits + fill + 1) - NeedSoFar(b, b.nbits + fill)
  {
    hide Walking, Need, NeedSoFar;
    next', g := next, f;
    ghost var t := table[..];
    if ok {
      WalkStep(t, f, b, b.nbits + fill, leaf);
      g := StepForest(t, f, b, leaf);
    }
    if table[leaf] == 0 {
      GrowBounded(t, next, leaf);
      Allocate(table, leaf, next);
      next' := next + 1;
    }
    assert table[..] == if t[leaf] == 0 then Grown(t, next, leaf) else t;
    ShrOfShl(b.Pos(), b.nbits, 15 - fill);
    var node: nat := table[leaf];
    leaf' := 2 * node;
    if Shr(pos, 15 - fill) % 2 == 1 {
      leaf' := leaf' + 1;
    }
    assert leaf' == 2 * table[..][leaf] + Shr(b.Pos(), 15 - (b.nbits + fill)) % 2;
  }

  lemma NeedMono(b: Build, d: nat)
    requires b.Valid() && d <= b.l && b.Pos() < FULL
    ensures NeedSoFar(b, d) <= NeedSoFar(b, b.l) == Need(b)
    ensures d < b.l ==> NeedSoFar(b, d) <= NeedSoFar(b, d + 1) <= NeedSoFar(b, d) + 1
  {
  }

  // A code past the end of the code space may need a node for every bit.
  lemma NeedPast(b: Build)
    requires b.Valid() && b.Pos() == FULL
    ensures Need(b) == b.l - b.nbits
  {
  }

  lemma RootFound(b: Build, pos: nat)
    requires b.Valid() && pos == Shl(b.Pos(), b.nbits)
    ensures Shr(pos, 16) == Shr(b.Pos(), 16 - b.nbits)
  {
    ShrOfShl(b.Pos(), b.nbits, 16);
  }

  lemma WalkStart(t: seq<Word>, f: Forest, b: Build)
    requires b.Valid() && b.Pos() < FULL && Ready(t, f, b)
    ensures Walking(t, f, b, b.nbits, Shr(b.Pos(), 16 - b.nbits)) && NeedSoFar(b, b.nbits) == 0
  {
    hide Linked, Placed, Older;
    RootOnPath(b);
    HalfSmall(b.nbits);
  }

  lemma RootInTable(t: seq<Word>, b: Build, next: nat)
    requires b.Valid() && b.half <= next && (b.Pos() == FULL ==> b.half < next)
    requires 2 * (next + Need(b)) <= |t|
    ensures Shr(b.Pos(), 16 - b.nbits) < 2 * next && Shr(b.Pos(), 16 - b.nbits) < |t|
  {
    hide Need;
    RootOnPath(b);
    HalfSmall(b.nbits);
  }

  // A missing node has room, as long as the whole way down has.
  lemma RoomBelow(t: seq<Word>, f: Forest, b: Build, d: nat, leaf: nat, next: nat, start: nat)
    requires b.Valid() && b.Pos() < FULL && d < b.l && leaf < |t| && Walking(t, f, b, d, leaf)
    requires next == start + NeedSoFar(b, d) && 2 * (start + Need(b)) <= |t| && start + Need(b) <= 65536
    ensures t[leaf] == 0 ==> 2 * next + 1 < |t| && next < 65536
    ensures NeedSoFar(b, d) <= NeedSoFar(b, d + 1) <= Need(b)
  {
    hide Walking, NeedSoFar, Need;
    NeedMono(b, d);
    NeedMono(b, d + 1);
    WalkNeeds(t, f, b, d, leaf);
  }

  // On the way down, d bits deep; next counts the nodes from `start` on.
  ghost predicate OnWay(t: seq<Word>, f: Forest, b: Build, d: nat, leaf: nat, next: nat, start: nat)
    requires b.Valid() && b.nbits <= d <= b.l
  {
    && start <= next && Bounded(t, next) && leaf < 2 * next && leaf < |t|
    && 2 * (start + Need(b)) <= |t| && start + Need(b) <= 65536
    && (b.Pos() == FULL ==> next <= start + d - b.nbits)
    && (b.Pos() < FULL ==> next == b.half + |f.lab| == start + NeedSoFar(b, d) && Walking(t, f, b, d, leaf))
  }

  // One level further.
  method WalkOn(pos: nat, fill: nat, table: array<Word>, leaf: nat, next: nat,
                ghost b: Build, ghost f: Forest, ghost start: nat)
    returns (leaf': nat, next': nat, ghost g: Forest)
    requires b.Valid() && fill < b.l - b.nbits && pos == Shl(b.Pos(), b.nbits)
    requires OnWay(table[..], f, b, b.nbits + fill, leaf, next, start)
    modifies table
    ensures OnWay(table[..], g, b, b.nbits + fill + 1, leaf', next', start)
    ensures next <= next' && (b.Pos() < FULL ==> g.loc == f.loc)
    ensures forall e :: 2 * next' <= e < table.Length ==> table[e] == old(table[e])
    ensures b.Pos() < FULL ==> forall e :: 0 <= e < b.first && e < table.Length ==> table[e] == old(table[e])
  {
    hide Walking, Need, NeedSoFar, Shl, Shr, Bounded, Before;
    if b.Pos() < FULL {
      RoomBelow(table[..], f, b, b.nbits + fill, leaf, next, start);
    } else {
      NeedPast(b);
    }
    leaf', next', g := Descend(pos, fill, table, leaf, next, b, f, b.Pos() < FULL);
  }

  // Walks down to the entry of one long code, allocating what is missing.
  method WalkTo(bitNum: nat, nbits: nat, pos: nat, nextSymbol: nat, table: array<Word>,
                ghost b: Build, ghost f: Forest)
    returns (leaf: nat, next: nat, ghost g: Forest)
    requires b.Valid() && b.l == bitNum && b.nbits == nbits && pos == Shl(b.Pos(), nbits)
    requires Bounded(table[..], nextSymbol) && b.half <= nextSymbol
    requires 2 * (nextSymbol + Need(b)) <= table.Length && nextSymbol + Need(b) <= 65536
    requires b.Pos() < FULL ==> nextSymbol == b.half + |f.lab| && Ready(table[..], f, b)
    requires b.Pos() == FULL ==> b.half < nextSymbol
    modifies table
    ensures nextSymbol <= next <= nextSymbol + Need(b) && Bounded(table[..], next)
    ensures leaf < 2 * next
    ensures forall e :: 2 * next <= e < table.Length ==> table[e] == old(table[e])
    ensures b.Pos() < FULL ==> forall e :: 0 <= e < b.first && e < table.Length ==> table[e] == old(table[e])
    ensures b.Pos() < FULL ==> next == b.half + |g.lab| == nextSymbol + Need(b)
    ensures b.Pos() < FULL ==> Walking(table[..], g, b, b.l, leaf) && g.loc == f.loc
  {
    next, g := nextSymbol, f;
    hide Walking, Ready, NeedSoFar, Need, Zeros, Before, Shl, Shr, Bounded;
    leaf := Shr(pos, 16);
    RootFound(b, pos);
    if b.Pos() < FULL {
      WalkStart(table[..], f, b);
    }
    RootInTable(table[..], b, nextSymbol);
    for fill := 0 to bitNum - nbits
      invariant nextSymbol <= next && OnWay(table[..], g, b, nbits + fill, leaf, next, nextSymbol)
      invariant forall e :: 2 * next <= e < table.Length ==> table[e] == old(table[e])
      invariant b.Pos() < FULL ==> forall e :: 0 <= e < b.first && e < table.Length ==> table[e] == old(table[e])
      invariant b.Pos() < FULL ==> g.loc == f.loc
    {
      leaf, next, g := WalkOn(pos, fill, table, leaf, next, b, g, nextSymbol);
    }
    if b.Pos() < FULL {
      NeedMono(b, b.l);
    } else {
      NeedPast(b);
    }
  }

  // Places one long code; a code past the end of the table is also walked, but
  // then nothing is promised about where it goes.
  method PlaceLong(sym: Word, bitNum: nat, nbits: nat, pos: nat, nextSymbol: nat, table: array<Word>,
                   ghost b: Build, ghost f: Forest)
    returns (next: nat, ghost g: Forest)
    requires b.Valid() && b.l == bitNum && b.nbits == nbits && b.n == sym < |b.lens| && b.lens[sym] == bitNum
    requires pos == Shl(b.Pos(), nbits)
    requires Bounded(table[..], nextSymbol) && b.half <= nextSymbol
    requires 2 * (nextSymbol + Need(b)) <= table.Length && nextSymbol + Need(b) <= 65536
    requires b.Pos() < FULL ==> nextSymbol == b.half + |f.lab| && Ready(table[..], f, b)
    requires b.Pos() == FULL ==> b.half < nextSymbol
    modifies table
    ensures nextSymbol <= next <= nextSymbol + Need(b)
    ensures forall e :: 2 * next <= e < table.Length ==> table[e] == old(table[e])
    ensures b.Pos() < FULL ==> forall e :: 0 <= e < b.first && e < table.Length ==> table[e] == old(table[e])
    ensures b.Pos() < FULL ==> next == b.half + |g.lab| == nextSymbol + Need(b)
    ensures b.Pos() < FULL ==> |g.loc| == |f.loc| + 1
    ensures b.Pos() < FULL ==> b.(n := b.n + 1).Valid() && Ready(table[..], g, b.(n := b.n + 1))
  {
    hide Walking, Ready, Need, Before, Hung;
    HalfSmall(nbits);
    var leaf: nat;
    leaf, next, g := WalkTo(bitNum, nbits, pos, nextSymbol, table, b, f);
    if b.Pos() < FULL {
      WalkEnds(table[..], g, b, leaf);
      HungSize(g, sym, leaf);
      g := Hung(g, sym, leaf);
    }
    table[leaf] := sym;
  }

  lemma HungSize(f: Forest, s: nat, leaf: nat)
    requires s !in f.loc
    ensures |Hung(f, s, leaf).loc| == |f.loc| + 1 && Hung(f, s, leaf).lab == f.lab
  {
  }

  lemma WalkNeeds(t: seq<Word>, f: Forest, b: Build, d: nat, leaf: nat)
    requires b.Valid() && Walking(t, f, b, d, leaf) && d < b.l && b.Pos() < FULL
    ensures t[leaf] == 0 <==> NeedSoFar(b, d) < NeedSoFar(b, d + 1)
  {
    AllocIffNeeded(t, f, b, d, leaf);
  }

  lemma WidthPositive(l: nat)
    requires l <= 16
    ensures 0 < Width(l)
  {
    ShlPositive(1, 16 - l);
  }

  // Direct entries that short codes fill are never on the way to a long code.
  lemma FirstNotOnPath(f: Forest, b: Build, d: nat, leaf: nat)
    requires b.Valid() && d <= 16 && leaf < 2 * b.half + 2 * |f.lab|
    requires Label(f, b.half, b.nbits, leaf) == Top(b.Pos(), d)
    ensures b.first <= 2 * b.half && b.first <= leaf
  {
    RootOnPath(b);
    Galois(b.first, b.Pos(), 16 - b.nbits);
    if leaf < 2 * b.half {
      RootPastFirst(f, b, d, leaf);
    }
  }

  lemma ShlOrder(x: nat, y: nat, n: nat)
    ensures Shl(x, n) <= Shl(y, n) <==> x <= y
  {
    if x <= y {
      ShlMono(x, y, n);
    } else {
      ShlAdd(y, x - y, n);
      ShlPositive(x - y, n);
    }
  }

  // Every placed symbol takes one node, but for the subtrees it fills: nodes, placed
  // symbols and open subtrees balance.
  ghost predicate Balanced(f: Forest, b: Build)
    requires b.Valid()
  {
    |f.lab| + 2 * b.half == |f.loc| + Open(FULL - b.Pos(), 16 - b.nbits) + b.first
  }

  lemma BalanceStep(b: Build, nodes: nat, placed: nat)
    requires b.Valid() && b.Pos() < FULL
    requires nodes + 2 * b.half == placed + Open(FULL - b.Pos(), 16 - b.nbits) + b.first
    ensures b.Pos() + Width(b.l) <= FULL
    ensures nodes + Need(b) + 2 * b.half == placed + 1 + Open(FULL - b.Pos() - Width(b.l), 16 - b.nbits) + b.first
  {
    hide Shl, Open, Zeros, Before;
    var r, k, j := FULL - b.Pos(), 16 - b.l, 16 - b.nbits;
    StartAligned(b.lens, b.l, b.n);
    AlignedRest(b.Pos(), k);
    if Shr(r, k) == 0 {
      ShlZero(k);
    }
    OpenStep(r, Shr(r, k), k, j);
  }

  // No more than the whole entries behind the first ones, and one subtree a level.
  lemma OpenBound(b: Build, w: nat)
    requires b.Valid() && Shl(b.first, 16 - b.nbits) <= w <= FULL
    ensures Open(FULL - w, 16 - b.nbits) + b.first <= 2 * b.half + 16 - b.nbits
  {
    hide Shl, Shr, Ones;
    var j := 16 - b.nbits;
    HalfSmall(b.nbits);
    FullTable(b.nbits);
    ShlAdd(b.first, 2 * b.half - b.first, j);
    var v := Shr(FULL - w, j);
    Galois(v, FULL - w, j);
    ShlOrder(v, 2 * b.half - b.first, j);
  }

  lemma {:induction false} SmallSet(s: set<nat>, n: nat)
    requires forall x :: x in s ==> x < n
    ensures |s| <= n
  {
    if n == 0 {
      assert s == {};
    } else {
      SmallSet(s - {n - 1}, n - 1);
      assert s <= s - {n - 1} + {n - 1};
      if n - 1 in s {
        assert |s - {n - 1}| == |s| - 1;
      } else {
        assert s - {n - 1} == s;
      }
    }
  }

  lemma PlacedCount(f: Forest, b: Build)
    requires b.Valid() && b.n < |b.lens| && forall s :: s in f.loc <==> b.Done(s)
    requires b.n !in f.loc
    ensures |f.loc| < |b.lens|
  {
    SmallSet(f.loc.Keys + {b.n}, |b.lens|);
    assert |f.loc.Keys + {b.n}| == |f.loc.Keys| + 1;
  }

  // The symbols whose codes do not fit the direct entries and begin before the end of
  // the table: these are placed.
  ghost function Early(lens: seq<Byte>, nbits: nat): set<nat> {
    set s: nat | s < |lens| && nbits < lens[s] <= 16 && CodeStart(lens, s) < FULL
  }

  // Where the codes end, as far as they fit.
  function Reached(lens: seq<Byte>): (w: nat)
    ensures w <= FULL
  {
    if Kraft(lens, 16) > FULL then FULL else Kraft(lens, 16)
  }

  // The overflow nodes that the codes take that fit: one for each, and what the
  // subtrees left open have grown by.
  ghost function Nodes(lens: seq<Byte>, nbits: nat): int
    requires 1 <= nbits <= 15 && Kraft(lens, nbits) <= FULL
  {
    |Early(lens, nbits)| + Open(FULL - Reached(lens), 16 - nbits) - Open(FULL - Kraft(lens, nbits), 16 - nbits)
  }

  ghost predicate Fits(lens: seq<Byte>, nbits: nat)
    requires 1 <= nbits <= 15
  {
    Kraft(lens, nbits) <= FULL && Kraft(lens, 16) <= FULL
  }

  // The long code that begins at the end of the table.
  ghost predicate Overruns(lens: seq<Byte>, nbits: nat, s: nat) {
    Coded(lens, s) && nbits < lens[s] && CodeStart(lens, s) == FULL
  }

  lemma OneOverruns(lens: seq<Byte>, nbits: nat, s: nat, t: nat)
    requires Overruns(lens, nbits, s) && Overruns(lens, nbits, t)
    ensures s == t
  {
    WidthPositive(lens[s]);
    WidthPositive(lens[t]);
    if Earlier(lens[s], s, lens[t], t) {
      EarlierEnds(lens, s, lens[t], t);
    } else if Earlier(lens[t], t, lens[s], s) {
      EarlierEnds(lens, t, lens[s], s);
    }
  }

  // The levels that such a code is walked down.
  ghost function OverLevels(lens: seq<Byte>, nbits: nat): (n: nat)
    ensures n <= 16 - nbits || n == 0
  {
    if exists s: nat :: Overruns(lens, nbits, s) then
      var s: nat :| Overruns(lens, nbits, s);
      lens[s] - nbits
    else 0
  }

  // The room for a vector: just what the nodes take, if its codes fit.  A code that
  // overruns is walked too, and can add a node at every level.
  ghost function RoomNeeded(lens: seq<Byte>, nbits: nat): int
    requires 1 <= nbits <= 15
  {
    if Kraft(lens, nbits) >= FULL then 0 else Nodes(lens, nbits) + OverLevels(lens, nbits)
  }

  lemma OnePast(lens: seq<Byte>, s: nat)
    requires Coded(lens, s)
    ensures Before(lens, lens[s], s + 1) == Before(lens, lens[s], s) + Width(lens[s]) > Before(lens, lens[s], s)
  {
    WidthPositive(lens[s]);
  }

  ghost function DoneSet(b: Build): set<nat> {
    set s: nat | s < |b.lens| && b.Done(s)
  }

  // The nodes that what has been placed takes, counted from the balance.
  ghost function NodesAt(b: Build): int
    requires b.Valid()
  {
    |DoneSet(b)| + Open(FULL - b.Pos(), 16 - b.nbits) + b.first - 2 * b.half
  }

  lemma OneMoreDone(b: Build)
    requires b.Valid() && b.n < |b.lens| && b.lens[b.n] == b.l
    ensures |DoneSet(b.(n := b.n + 1))| == |DoneSet(b)| + 1
  {
    hide Before, Shl;
    var c := b.(n := b.n + 1);
    assert !b.Done(b.n);
    forall s: nat
      ensures c.Done(s) <==> b.Done(s) || s == b.n
    {
    }
    assert DoneSet(c) == DoneSet(b) + {b.n};
  }

  lemma PlaceGrows(b: Build)
    requires b.Valid() && b.Pos() < FULL && b.n < |b.lens| && b.lens[b.n] == b.l
    ensures b.(n := b.n + 1).Valid() && NodesAt(b) <= NodesAt(b.(n := b.n + 1))
  {
    hide Open, Shl, Before, DoneSet;
    NextValid(b);
    OneMoreDone(b);
    Shrinks(b);
  }

  lemma SkipKeepsNodes(b: Build, c: Build)
    requires b.Valid() && c.Valid() && b.Pos() == c.Pos() && forall s: nat :: b.Done(s) <==> c.Done(s)
    requires c == b.(l := c.l, n := c.n)
    ensures NodesAt(b) == NodesAt(c)
  {
    hide Open, Shl, Before;
    assert DoneSet(b) == DoneSet(c);
  }

  // When the next code overruns, or none is left, those that fit have been placed.
  lemma DoneIsEarly(b: Build)
    requires b.Valid()
    requires if b.n < |b.lens| then b.lens[b.n] == b.l && b.Pos() == FULL else b.l == 16
    ensures DoneSet(b) == Early(b.lens, b.nbits) && b.Pos() == Reached(b.lens)
  {
    hide Shl, Before;
    KraftIs(b.lens, 16);
    if b.n < |b.lens| {
      OnePast(b.lens, b.n);
      BeforeMono(b.lens, b.l, b.n + 1, 16, |b.lens|);
    }
    forall s: nat | s < |b.lens| && b.nbits < b.lens[s] <= 16
      ensures b.Done(s) <==> CodeStart(b.lens, s) < FULL
    {
      WidthPositive(b.lens[s]);
      if b.Done(s) {
        EarlierEnds(b.lens, s, b.l, b.n);
      } else {
        BeforeMono(b.lens, b.l, b.n, b.lens[s], s);
      }
    }
  }

  // What has been placed takes no more nodes than all the codes that fit will.
  lemma {:induction false} WillGrow(b: Build)
    requires b.Valid() && Shl(b.first, 16 - b.nbits) == Kraft(b.lens, b.nbits)
    ensures NodesAt(b) <= Nodes(b.lens, b.nbits)
    ensures b.n < |b.lens| && b.lens[b.n] == b.l && b.Pos() == FULL ==> NodesAt(b) == Nodes(b.lens, b.nbits)
    decreases 16 - b.l, |b.lens| - b.n
  {
    hide Open, Shl, Before, Nodes, NodesAt;
    if b.n < |b.lens| && b.lens[b.n] == b.l {
      if b.Pos() < FULL {
        PlaceGrows(b);
        WillGrow(b.(n := b.n + 1));
      } else {
        GrownAll(b);
      }
    } else if b.n < |b.lens| {
      SkipSymbol(b);
      SkipKeepsNodes(b, b.(n := b.n + 1));
      WillGrow(b.(n := b.n + 1));
    } else if b.l < 16 {
      SkipLength(b);
      SkipKeepsNodes(b, b.(l := b.l + 1, n := 0));
      WillGrow(b.(l := b.l + 1, n := 0));
    } else {
      GrownAll(b);
    }
  }

  lemma Shrinks(b: Build)
    requires b.Valid() && b.Pos() < FULL && b.Pos() + Width(b.l) <= FULL
    requires b.n < |b.lens| && b.lens[b.n] == b.l
    ensures Open(FULL - b.Pos(), 16 - b.nbits) <= Open(FULL - b.Pos() - Width(b.l), 16 - b.nbits) + 1
  {
    hide Open, Shl, Before, Zeros;
    var r, k := FULL - b.Pos(), 16 - b.l;
    StartAligned(b.lens, b.l, b.n);
    AlignedRest(b.Pos(), k);
    if Shr(r, k) == 0 {
      ShlZero(k);
    }
    OpenStep(r, Shr(r, k), k, 16 - b.nbits);
  }

  lemma GrownAll(b: Build)
    requires b.Valid() && Shl(b.first, 16 - b.nbits) == Kraft(b.lens, b.nbits)
    requires if b.n < |b.lens| then b.lens[b.n] == b.l && b.Pos() == FULL else b.l == 16
    ensures NodesAt(b) == Nodes(b.lens, b.nbits)
  {
    hide Open, Shl, Before, Early, DoneSet;
    HalfSmall(b.nbits);
    OpenAfter(b.first, b.nbits);
    DoneIsEarly(b);
  }

  // The forest has the nodes of what has been placed.
  lemma NodesAre(f: Forest, b: Build)
    requires b.Valid() && Balanced(f, b) && forall s :: s in f.loc <==> b.Done(s)
    ensures |f.lab| == NodesAt(b)
  {
    hide Open, Shl, Before;
    assert f.loc.Keys == DoneSet(b);
  }

  lemma RoomForNext(f: Forest, b: Build)
    requires b.Valid() && b.n < |b.lens| && b.lens[b.n] == b.l
    requires forall s :: s in f.loc <==> b.Done(s)
    requires Balanced(f, b) && b.first < 2 * b.half && Shl(b.first, 16 - b.nbits) == Kraft(b.lens, b.nbits)
    ensures |f.lab| + Need(b) <= RoomNeeded(b.lens, b.nbits)
    ensures b.Pos() < FULL ==>
      b.Pos() + Width(b.l) <= FULL
      && |f.lab| + Need(b) + 2 * b.half
        == |f.loc| + 1 + Open(FULL - b.Pos() - Width(b.l), 16 - b.nbits) + b.first
  {
    hide Open, Shl, NodesAt, Nodes, Before, Need, OverLevels;
    FirstBelow(b);
    NodesAre(f, b);
    WillGrow(b);
    if b.Pos() < FULL {
      RoomFits(f, b);
    } else {
      NeedPast(b);
      assert Need(b) == OverLevels(b.lens, b.nbits) by { LevelsOver(b); }
    }
  }

  lemma LevelsOver(b: Build)
    requires b.Valid() && b.n < |b.lens| && b.lens[b.n] == b.l && b.Pos() == FULL
    ensures OverLevels(b.lens, b.nbits) == b.l - b.nbits == Need(b)
  {
    hide Shl, Before;
    assert Overruns(b.lens, b.nbits, b.n);
    var s: nat :| Overruns(b.lens, b.nbits, s) && OverLevels(b.lens, b.nbits) == b.lens[s] - b.nbits;
    OneOverruns(b.lens, b.nbits, s, b.n);
  }

  lemma FirstBelow(b: Build)
    requires b.Valid() && b.first < 2 * b.half
    ensures Shl(b.first, 16 - b.nbits) < FULL
  {
    HalfSmall(b.nbits);
    FullTable(b.nbits);
    ShlOrder(2 * b.half, b.first, 16 - b.nbits);
  }

  lemma RoomFits(f: Forest, b: Build)
    requires b.Valid() && b.n < |b.lens| && b.lens[b.n] == b.l && b.Pos() < FULL
    requires forall s :: s in f.loc <==> b.Done(s)
    requires Balanced(f, b) && Shl(b.first, 16 - b.nbits) == Kraft(b.lens, b.nbits)
    ensures b.Pos() + Width(b.l) <= FULL
    ensures |f.lab| + Need(b) <= Nodes(b.lens, b.nbits)
    ensures |f.lab| + Need(b) + 2 * b.half
      == |f.loc| + 1 + Open(FULL - b.Pos() - Width(b.l), 16 - b.nbits) + b.first
  {
    hide Open, Shl, Nodes, Before, Need;
    BalanceStep(b, |f.lab|, |f.loc|);
    NextValid(b);
    WillGrow(b.(n := b.n + 1));
    OneMoreDone(b);
    assert f.loc.Keys == DoneSet(b);
  }

  // At the start nothing has been placed.
  lemma RoomNonNegative(lens: seq<Byte>, half: nat, nbits: nat, start: nat)
    requires 1 <= nbits <= 15 && |lens| <= half == Shl(1, nbits - 1)
    requires start < 2 * half && Shl(start, 16 - nbits) == Kraft(lens, nbits)
    ensures 0 <= RoomNeeded(lens, nbits)
  {
    hide Shl, Shr, Open, Nodes, Before, OverLevels;
    var b := Build(lens, half, nbits, start, nbits + 1, 0);
    HalfSmall(nbits);
    OpenAfter(start, nbits);
    KraftIsStart(lens, nbits);
    FirstBelow(b);
    WillGrow(b);
  }

  lemma KraftIsStart(lens: seq<Byte>, nbits: nat)
    requires 1 <= nbits <= 15
    ensures Before(lens, nbits + 1, 0) == Kraft(lens, nbits)
  {
  }

  // What any vector takes at most.
  lemma RoomIsSmall(lens: seq<Byte>, nbits: nat)
    requires 1 <= nbits <= 15 && |lens| <= Shl(1, nbits - 1)
    ensures RoomNeeded(lens, nbits) <= |lens| + 16 - nbits
  {
    hide Shl, Shr, Before, Early, Kraft, OverLevels;
    if Kraft(lens, nbits) < FULL {
      EarlyCount(lens, nbits);
      if Kraft(lens, 16) > FULL {
        OpenAtEnd(16 - nbits);
      } else {
        RoomIfFits(lens, nbits);
      }
    }
  }

  lemma EarlyCount(lens: seq<Byte>, nbits: nat)
    ensures |Early(lens, nbits)| <= |lens|
  {
    SmallSet(Early(lens, nbits), |lens|);
  }

  lemma NoneOverruns(lens: seq<Byte>, nbits: nat)
    requires Kraft(lens, 16) <= FULL
    ensures OverLevels(lens, nbits) == 0
  {
    hide Shl, Before;
    forall s: nat | Overruns(lens, nbits, s)
      ensures false
    {
      OnePast(lens, s);
      KraftIs(lens, 16);
      BeforeMono(lens, lens[s], s + 1, 16, |lens|);
    }
  }

  lemma RoomIfFits(lens: seq<Byte>, nbits: nat)
    requires 1 <= nbits <= 15 && |lens| <= Shl(1, nbits - 1)
    requires Kraft(lens, nbits) < FULL && Kraft(lens, 16) <= FULL
    ensures RoomNeeded(lens, nbits) == Nodes(lens, nbits) <= |lens| + 16 - nbits
  {
    hide Open, Shl, Shr, Before, DoneSet, Nodes;
    NoneOverruns(lens, nbits);
    var j := 16 - nbits;
    var first := Shr(Kraft(lens, nbits), j);
    var b := Build(lens, Shl(1, nbits - 1), nbits, first, 16, |lens|);
    KraftIs(lens, nbits);
    KraftIs(lens, 16);
    BeforeMono(lens, nbits, |lens|, 16, |lens|);
    StartAligned(lens, nbits, |lens|);
    HalfSmall(nbits);
    FullTable(nbits);
    ShlOrder(first, Shl(1, nbits), j);
    assert b.Valid();
    GrownAll(b);
    OpenBound(b, b.Pos());
    DoneCount(b);
  }

  lemma DoneCount(b: Build)
    ensures |DoneSet(b)| <= |b.lens|
  {
    SmallSet(DoneSet(b), |b.lens|);
  }

  lemma OpenAtEnd(j: nat)
    ensures Open(0, j) == 0
  {
    OnesZero(j);
    Galois(1, 0, j);
    ShlPositive(1, j);
  }

  lemma {:induction false} OnesZero(j: nat)
    ensures Ones(0, j) == 0
  {
    if j > 0 {
      OnesZero(j - 1);
    }
  }

  lemma HalfSmall(nbits: nat)
    requires 1 <= nbits <= 15
    ensures 1 <= Shl(1, nbits - 1) <= 16384 && Shl(1, nbits) == 2 * Shl(1, nbits - 1)
  {
    ShlDouble(1, nbits - 1);
    ShlPositive(1, nbits - 1);
    ShlTwice(1, nbits - 1, 15 - nbits);
    ShlPositive(Shl(1, nbits - 1), 15 - nbits);
    assert Shl(1, 14) == Shl(16, 10) == Shl(64, 8) == Shl(1024, 4) == Shl(16384, 0) by {
      assert Shl(1, 14) == Shl(4, 12) == Shl(16, 10);
      assert Shl(64, 8) == Shl(256, 6) == Shl(1024, 4) == Shl(4096, 2) == Shl(16384, 0);
    }
  }

  // The overflow area once every long code has been placed.
  ghost predicate Finished(t: seq<Word>, f: Forest, lens: seq<Byte>, nbits: nat, first: nat)
    requires 1 <= nbits <= 15
  {
    var half := Shl(1, nbits - 1);
    && Linked(t, f, half, nbits)
    && Placed(t, f, half, nbits, first, lens, Kraft(lens, 16))
    && (forall s: nat :: s in f.loc <==> Coded(lens, s) && nbits < lens[s])
  }

  // How many nodes the whole vector took.
  ghost predicate Settled(f: Forest, first: nat, lens: seq<Byte>, nbits: nat)
    requires nbits <= 16
  {
    && Kraft(lens, 16) <= FULL
    && |f.lab| + Shl(1, nbits) == |f.loc| + Open(FULL - Kraft(lens, 16), 16 - nbits) + first
  }

  // The invariant of the loop over the long codes.
  ghost predicate Adding(t: seq<Word>, f: Forest, b: Build) {
    && b.Valid() && Ready(t, f, b) && Balanced(f, b)
    && b.first < 2 * b.half && Shl(b.first, 16 - b.nbits) == Kraft(b.lens, b.nbits)
    && (f.loc == map[] ==> b.Pos() < FULL)
  }

  lemma SkipSymbol(b: Build)
    requires b.Valid() && b.n < |b.lens| && b.lens[b.n] != b.l
    ensures var c := b.(n := b.n + 1); c.Valid() && c.Pos() == b.Pos() && forall s: nat :: b.Done(s) <==> c.Done(s)
  {
  }

  lemma SkipLength(b: Build)
    requires b.Valid() && b.n == |b.lens| && b.l < 16
    ensures var c := b.(l := b.l + 1, n := 0);
      c.Valid() && c.Pos() == b.Pos() && forall s: nat :: b.Done(s) <==> c.Done(s)
  {
  }

  lemma AddingSkips(t: seq<Word>, f: Forest, b: Build)
    requires Adding(t, f, b) && b.n < |b.lens| && b.lens[b.n] != b.l
    ensures b.(n := b.n + 1).Valid()
    ensures Adding(t, f, b.(n := b.n + 1)) && b.(n := b.n + 1).Pos() == b.Pos()
  {
    hide Linked, Placed, Older, Before, Shl, Ones;
    SkipSymbol(b);
  }

  lemma AddingNextLength(t: seq<Word>, f: Forest, b: Build)
    requires Adding(t, f, b) && b.n == |b.lens| && b.l < 16
    ensures b.(l := b.l + 1, n := 0).Valid()
    ensures Adding(t, f, b.(l := b.l + 1, n := 0)) && b.(l := b.l + 1, n := 0).Pos() == b.Pos()
  {
    hide Linked, Placed, Older, Before, Shl, Ones;
    SkipLength(b);
  }

  lemma AddingDone(t: seq<Word>, f: Forest, b: Build)
    requires Adding(t, f, b) && b.n == |b.lens| && b.l == 16
    ensures b.Pos() == Kraft(b.lens, 16) <= FULL && 1 <= b.nbits <= 15
    ensures Finished(t, f, b.lens, b.nbits, b.first)
    ensures Settled(f, b.first, b.lens, b.nbits)
  {
    hide Placed, Older, NodesOk, Kraft, Before, Shl, Shr;
    HalfSmall(b.nbits);
    assert b.Pos() == Kraft(b.lens, 16) by { KraftIs(b.lens, 16); }
  }

  lemma KraftIs(lens: seq<Byte>, l: nat)
    requires 1 <= l <= 16
    ensures Before(lens, l, |lens|) == Kraft(lens, l)
  {
  }

  lemma SomeNode(t: seq<Word>, f: Forest, b: Build)
    requires Adding(t, f, b) && b.Pos() == FULL
    ensures |f.lab| > 0
  {
    var s :| s in f.loc;
    assert PlacedAt(t, f, b.half, b.nbits, b.lens, b.Pos(), s);
  }

  // The code adds 2^(16-l) to the scaled position, which may then pass the end.
  lemma AddMask(b: Build, pos: nat)
    requires b.Valid() && pos == Shl(b.Pos(), b.nbits)
    ensures pos + Shl(1, 16 + b.nbits - b.l) == Shl(b.Pos() + Width(b.l), b.nbits)
    ensures pos + Shl(1, 16 + b.nbits - b.l) > Shl(1, b.nbits + 16) <==> b.Pos() + Width(b.l) > FULL
  {
    ShlTwice(1, 16 - b.l, b.nbits);
    ShlAdd(b.Pos(), Width(b.l), b.nbits);
    FullIsShl();
    ShlTwice(1, 16, b.nbits);
    ShlOrder(b.Pos() + Width(b.l), FULL, b.nbits);
  }

  lemma AddingStart(t: seq<Word>, lens: seq<Byte>, half: nat, nbits: nat, start: nat)
    requires 1 <= nbits <= 15 && |lens| <= half == Shl(1, nbits - 1)
    requires start < 2 * half <= |t| && Shl(start, 16 - nbits) == Kraft(lens, nbits)
    requires forall e :: 0 <= e < start ==> t[e] < half
    requires forall e :: start <= e < 2 * half ==> t[e] == 0
    ensures Build(lens, half, nbits, start, nbits + 1, 0).Valid()
    ensures Adding(t, Forest([], [], map[]), Build(lens, half, nbits, start, nbits + 1, 0))
    ensures Build(lens, half, nbits, start, nbits + 1, 0).Pos() == Kraft(lens, nbits)
  {
    hide Shl, Shr, Ones;
    var b := Build(lens, half, nbits, start, nbits + 1, 0);
    HalfSmall(nbits);
    FullTable(nbits);
    ShlOrder(2 * half, start, 16 - nbits);
    var w := Kraft(lens, nbits);
    assert b.Pos() == w < FULL;
    OpenAfter(start, nbits);
  }

  // Behind the first direct entries the others are open.
  lemma OpenAfter(first: nat, nbits: nat)
    requires 1 <= nbits <= 15 && first <= Shl(1, nbits)
    ensures Shl(first, 16 - nbits) <= FULL
    ensures Open(FULL - Shl(first, 16 - nbits), 16 - nbits) + first == Shl(1, nbits)
  {
    hide Shl, Shr, Ones;
    var j, rest := 16 - nbits, Shl(1, nbits) - first;
    FullTable(nbits);
    ShlAdd(first, rest, j);
    AlignedShl(rest, j, FULL - Shl(first, j));
    AlignedOnes(FULL - Shl(first, j), j);
    ShrShl(rest, j);
  }

  lemma {:induction false} AlignedOnes(r: nat, j: nat)
    requires Aligned(r, j)
    ensures Ones(r, j) == 0
  {
    if j > 0 {
      ShrTwice(r, 1, j - 1);
      assert Shr(r, 1) == r / 2;
      ShlDouble(Shr(r, j), j - 1);
      AlignedOnes(r / 2, j - 1);
    }
  }

  // Places one long code and tells whether the codes now overrun the table.
  method AddLong(sym: Word, bitNum: nat, nbits: nat, pos: nat, nextSymbol: nat, table: array<Word>,
                 ghost b: Build, ghost f: Forest)
    returns (over: bool, pos': nat, next: nat, ghost g: Forest)
    requires Adding(table[..], f, b)
    requires b.l == bitNum && b.nbits == nbits && b.n == sym < |b.lens| && b.lens[sym] == bitNum
    requires nbits <= 15 && 2 * b.half + 2 * RoomNeeded(b.lens, nbits) <= table.Length
    requires pos == Shl(b.Pos(), nbits) && nextSymbol == b.half + |f.lab|
    modifies table
    ensures over <==> b.(n := b.n + 1).Pos() > FULL
    ensures !over ==> pos' == Shl(b.(n := b.n + 1).Pos(), nbits) && next == b.half + |g.lab|
    ensures !over ==> b.(n := b.n + 1).Valid() && Adding(table[..], g, b.(n := b.n + 1))
    ensures nextSymbol <= next <= b.half + RoomNeeded(b.lens, nbits)
    ensures forall e :: 2 * next <= e < table.Length ==> table[e] == old(table[e])
    ensures !over ==> forall e :: 0 <= e < b.first && e < table.Length ==> table[e] == old(table[e])
  {
    hide Adding, Ready, Need, Before, Zeros, Open;
    BeforeAdd(table[..], f, b, pos);
    next, g := PlaceLong(sym, bitNum, nbits, pos, nextSymbol, table, b, f);
    var bitMask := Shl(1, 16 + nbits - bitNum);
    var tableMask := Shl(1, nbits + 16);
    pos' := pos + bitMask;
    over := pos' > tableMask;
    if !over {
      AfterAdd(table[..], g, b.(n := b.n + 1));
    }
  }

  // Everything the placement of the next code asks for, and what it will do to
  // the balance.
  lemma BeforeAdd(t: seq<Word>, f: Forest, b: Build, pos: nat)
    requires Adding(t, f, b) && b.n < |b.lens| && b.lens[b.n] == b.l
    requires b.nbits <= 15 && 2 * b.half + 2 * RoomNeeded(b.lens, b.nbits) <= |t|
    requires pos == Shl(b.Pos(), b.nbits)
    ensures b.Valid() && Ready(t, f, b) && Bounded(t, b.half + |f.lab|)
    ensures b.first < 2 * b.half && Shl(b.first, 16 - b.nbits) == Kraft(b.lens, b.nbits)
    ensures |f.lab| + Need(b) <= RoomNeeded(b.lens, b.nbits)
    ensures 2 * (b.half + |f.lab| + Need(b)) <= |t| && b.half + |f.lab| + Need(b) <= 65536
    ensures b.Pos() == FULL ==> 0 < |f.lab|
    ensures b.(n := b.n + 1).Pos() == b.Pos() + Width(b.l)
    ensures pos + Shl(1, 16 + b.nbits - b.l) == Shl(b.(n := b.n + 1).Pos(), b.nbits)
    ensures pos + Shl(1, 16 + b.nbits - b.l) > Shl(1, b.nbits + 16) <==> b.(n := b.n + 1).Pos() > FULL
    ensures 0 < Width(b.l)
    ensures b.Pos() < FULL ==>
      b.(n := b.n + 1).Pos() <= FULL
      && |f.lab| + Need(b) + 2 * b.half
        == |f.loc| + 1 + Open(FULL - b.(n := b.n + 1).Pos(), 16 - b.nbits) + b.first
  {
    hide Placed, Older, NodesOk, Need, Zeros, Open;
    HalfSmall(b.nbits);
    WidthPositive(b.l);
    RoomForNext(f, b);
    RoomIsSmall(b.lens, b.nbits);
    if b.Pos() == FULL {
      SomeNode(t, f, b);
    }
    AddMask(b, pos);
    assert b.(n := b.n + 1).Pos() == b.Pos() + Width(b.l);
  }

  lemma AfterAdd(t: seq<Word>, f: Forest, b: Build)
    requires b.Valid() && Ready(t, f, b) && 0 < |f.loc|
    requires b.first < 2 * b.half && Shl(b.first, 16 - b.nbits) == Kraft(b.lens, b.nbits)
    requires |f.lab| + 2 * b.half == |f.loc| + Open(FULL - b.Pos(), 16 - b.nbits) + b.first
    ensures Adding(t, f, b)
  {
  }

  // Clears the direct entries that no short code fills.
  method ClearEntries(table: array<Word>, start: nat, end: nat)
    requires start <= end <= table.Length
    modifies table
    ensures forall x :: start <= x < end ==> table[x] == 0
    ensures forall e :: 0 <= e < table.Length && !(start <= e < end) ==> table[e] == old(table[e])
  {
    for sym := start to end
      invariant forall x :: start <= x < sym ==> table[x] == 0
      invariant forall e :: 0 <= e < table.Length && !(start <= e < sym) ==> table[e] == old(table[e])
    {
      table[sym] := 0;
    }
  }

  // Places the codes of one length.
  method AddLength(nsyms: nat, nbits: nat, bitNum: nat, length: array<Byte>, table: array<Word>,
                   pos: nat, nextSymbol: nat, ghost b0: Build, ghost f: Forest)
    returns (over: bool, pos': nat, next: nat, ghost g: Forest)
    requires nsyms <= length.Length && length[..nsyms] == b0.lens && b0.l == bitNum && b0.n == 0
    requires b0.Valid() && nsyms <= 65536 && nbits <= 15 && b0.nbits == nbits
    requires Adding(table[..], f, b0) && 2 * b0.half + 2 * RoomNeeded(b0.lens, nbits) <= table.Length
    requires pos == Shl(b0.Pos(), nbits) && nextSymbol == b0.half + |f.lab|
    requires nextSymbol <= b0.half + RoomNeeded(b0.lens, nbits)
    modifies table
    ensures over ==> Kraft(b0.lens, 16) > FULL
    ensures nextSymbol <= next <= b0.half + RoomNeeded(b0.lens, nbits)
    ensures forall e :: 0 <= e < table.Length && 2 * (b0.half + RoomNeeded(b0.lens, nbits)) <= e ==>
      table[e] == old(table[e])
    ensures !over ==> b0.(n := nsyms).Valid()
    ensures !over ==> Adding(table[..], g, b0.(n := nsyms)) && pos' == Shl(b0.(n := nsyms).Pos(), nbits)
    ensures !over ==> next == b0.half + |g.lab|
    ensures !over ==> forall e :: 0 <= e < table.Length && !(b0.first <= e < 2 * next) ==> table[e] == old(table[e])
  {
    hide Adding, Before, Shl;
    pos', next, g := pos, nextSymbol, f;
    ghost var b := b0;
    for sym := 0 to nsyms
      invariant b == b0.(n := sym) && b.Valid() && length[..nsyms] == b0.lens
      invariant Adding(table[..], g, b)
      invariant pos' == Shl(b.Pos(), nbits) && next == b0.half + |g.lab|
      invariant nextSymbol <= next <= b0.half + RoomNeeded(b0.lens, nbits)
      invariant forall e :: 0 <= e < table.Length && !(b0.first <= e < 2 * next) ==> table[e] == old(table[e])
    {
      if length[sym] == bitNum {
        over, pos', next, g := AddLong(sym, bitNum, nbits, pos', next, table, b, g);
        if over {
          BeforeMono(b.lens, bitNum, sym + 1, 16, nsyms);
          return;
        }
      } else {
        AddingSkips(table[..], g, b);
      }
      b := b.(n := b.n + 1);
    }
    over := false;
  }

  // Fills the overflow trees with the codes longer than nbits.
  method FillLong(nsyms: nat, nbits: nat, length: array<Byte>, table: array<Word>, start: nat)
    returns (over: bool, pos: nat, ghost f: Forest)
    requires 1 <= nbits <= 15 && nsyms <= length.Length && nsyms <= Shl(1, nbits - 1)
    requires Shl(1, nbits) <= table.Length
    requires Shl(1, nbits) + 2 * RoomNeeded(length[..nsyms], nbits) <= table.Length
    requires start < Shl(1, nbits) && Shl(start, 16 - nbits) == Kraft(length[..nsyms], nbits)
    requires forall e :: 0 <= e < start ==> table[e] < nsyms
    modifies table
    ensures over <==> Kraft(length[..nsyms], 16) > FULL
    ensures !over ==> pos == Shl(Kraft(length[..nsyms], 16), nbits)
    ensures !over ==> Finished(table[..], f, length[..nsyms], nbits, start)
    ensures !over ==> Settled(f, start, length[..nsyms], nbits)
    ensures !over ==> Shl(1, nbits) + 2 * |f.lab| <= table.Length
    ensures 0 <= RoomNeeded(length[..nsyms], nbits)
    ensures forall e :: 0 <= e < table.Length && Shl(1, nbits) + 2 * RoomNeeded(length[..nsyms], nbits) <= e ==>
      table[e] == old(table[e])
    ensures !over ==> forall e :: 0 <= e < table.Length && !(start <= e < Shl(1, nbits) + 2 * |f.lab|) ==>
      table[e] == old(table[e])
  {
    ghost var lens := length[..nsyms];
    ghost var half := Shl(1, nbits - 1);
    HalfSmall(nbits);
    var tableMask := Shl(1, nbits);
    ClearEntries(table, start, tableMask);
    var nextSymbol := tableMask / 2;
    pos := Shl(start, 16);
    ShlTwice(start, 16 - nbits, nbits);
    f := Forest([], [], map[]);
    AddingStart(table[..], lens, half, nbits, start);
    RoomNonNegative(lens, half, nbits, start);
    ghost var b := Build(lens, half, nbits, start, nbits + 1, 0);
    hide Adding, Settled, Finished, Before, Shl, RoomNeeded;
    var bitNum := nbits + 1;
    while true
      invariant nbits < bitNum <= 16
      invariant b == Build(lens, half, nbits, start, bitNum, 0) && b.Valid()
      invariant Adding(table[..], f, b) && length[..nsyms] == lens
      invariant pos == Shl(b.Pos(), nbits) && nextSymbol == half + |f.lab|
      invariant nextSymbol <= half + RoomNeeded(lens, nbits)
      invariant forall e :: 0 <= e < table.Length && !(start <= e < 2 * nextSymbol) ==> table[e] == old(table[e])
      decreases 16 - bitNum
    {
      over, pos, nextSymbol, f := AddLength(nsyms, nbits, bitNum, length, table, pos, nextSymbol, b, f);
      if over {
        return;
      }
      b := b.(n := nsyms);
      if bitNum == 16 {
        AddingDone(table[..], f, b);
        return false, pos, f;
      }
      AddingNextLength(table[..], f, b);
      bitNum := bitNum + 1;
      b := b.(l := b.l + 1, n := 0);
    }
  }
}
