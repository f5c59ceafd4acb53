/** The invariant under which long codes are added to the overflow trees. */
module Growth {
  import opened Shifts
  import opened Canonical
  import opened NodeCount
  import opened Forest

  // The fixed data of one table build, and the next code to be placed: the one
  // for length l and symbol n.  The direct entries below `first` are taken by
  // codes of at most nbits bits.
  datatype Build = Build(lens: seq<Byte>, half: nat, nbits: nat, first: nat, l: nat, n: nat) {
    ghost predicate Valid() {
      && 1 <= nbits < l <= 16 && n <= |lens| <= half
      && half == Shl(1, nbits - 1) && first <= 2 * half
      && Shl(first, 16 - nbits) <= Pos() <= FULL
    }

    ghost function Pos(): nat
      requires 1 <= l <= 16 && n <= |lens|
    {
      Before(lens, l, n)
    }

    // The long symbols already placed.
    ghost predicate Done(s: nat) {
      Coded(lens, s) && nbits < lens[s] && Earlier(lens[s], s, l, n)
    }
  }

  // Walking down for the code at Pos(), d bits deep and standing at entry leaf.
  ghost predicate Walking(t: seq<Word>, f: Forest, b: Build, d: nat, leaf: nat)
    requires b.Valid()
  {
    && b.nbits <= d <= b.l
    && Linked(t, f, b.half, b.nbits)
    && Placed(t, f, b.half, b.nbits, b.first, b.lens, b.Pos())
    && Older(f, b.Pos(), d)
    && (forall s :: s in f.loc <==> b.Done(s))
    && leaf < 2 * b.half + 2 * |f.lab|
    && Label(f, b.half, b.nbits, leaf) == Top(b.Pos(), d)
  }

  // No symbol sits on the way to the next code.
  lemma NotSymbol(t: seq<Word>, f: Forest, b: Build, d: nat, leaf: nat, s: nat)
    requires b.Valid() && Walking(t, f, b, d, leaf) && s in f.loc
    ensures f.loc[s] != leaf
  {
    hide Shl, Shr, Before, NodesOk, Older;
    assert PlacedAt(t, f, b.half, b.nbits, b.lens, b.Pos(), s);
    var w, cs := b.Pos(), CodeStart(b.lens, s);
    if f.loc[s] == leaf {
      StartAligned(b.lens, b.lens[s], s);
      ShlAdd(Shr(cs, 16 - d), 1, 16 - d);
      ShrBounds(w, 16 - d);
      assert false;
    }
  }

  lemma EntryOnPath(t: seq<Word>, f: Forest, b: Build, d: nat, leaf: nat)
    requires b.Valid() && Walking(t, f, b, d, leaf) && b.Pos() < FULL
    ensures t[leaf] == 0 || b.half <= t[leaf]
  {
    assert HeldAt(t, f, b.half, b.first, leaf);
    if 0 < t[leaf] < b.half {
      if leaf >= 2 * b.half {
        NotSymbol(t, f, b, d, leaf, t[leaf]);
      } else {
        RootPastFirst(f, b, d, leaf);
      }
      assert false;
    }
  }

  lemma RootPastFirst(f: Forest, b: Build, d: nat, leaf: nat)
    requires b.Valid() && d <= 16 && leaf < 2 * b.half
    requires Label(f, b.half, b.nbits, leaf) == Top(b.Pos(), d)
    ensures b.first <= leaf
  {
    Galois(b.first, b.Pos(), 16 - b.nbits);
  }

  // The node below the entry, when there is one, has the entry's prefix.
  lemma NodeBelow(t: seq<Word>, f: Forest, half: nat, nbits: nat, leaf: nat)
    requires Linked(t, f, half, nbits)
    requires leaf < 2 * half + 2 * |f.lab| && half <= t[leaf]
    ensures f.lab[t[leaf] - half] == Label(f, half, nbits, leaf)
  {
    assert EntryAt(t, f, half, leaf);
    assert NodeAt(t, f, half, nbits, t[leaf] - half);
  }

  lemma WalkDown(t: seq<Word>, f: Forest, b: Build, d: nat, leaf: nat, w: nat)
    requires Linked(t, f, b.half, b.nbits) && b.nbits <= d < 16
    requires leaf < 2 * b.half + 2 * |f.lab| && b.half <= t[leaf]
    requires Label(f, b.half, b.nbits, leaf) == Top(w, d)
    ensures var e := 2 * t[leaf] + Shr(w, 15 - d) % 2;
      e < 2 * b.half + 2 * |f.lab| && Label(f, b.half, b.nbits, e) == Top(w, d + 1)
  {
    NodeBelow(t, f, b.half, b.nbits, leaf);
    assert Shr(w, 16 - d) == Shr(w, 15 - d) / 2;
  }

  lemma WalkAlloc(t: seq<Word>, f: Forest, b: Build, d: nat, leaf: nat)
    requires b.Valid() && Walking(t, f, b, d, leaf) && d < b.l && t[leaf] == 0
    requires 2 * b.half + 2 * |f.lab| + 1 < |t| && b.half + |f.lab| < 65536
    ensures var t', g := Grown(t, b.half + |f.lab|, leaf), GrownForest(f, b.half, b.nbits, leaf);
      && Linked(t', g, b.half, b.nbits)
      && Placed(t', g, b.half, b.nbits, b.first, b.lens, b.Pos())
      && Older(g, b.Pos(), d + 1)
      && Label(g, b.half, b.nbits, leaf) == Top(b.Pos(), d)
  {
    ShlPositive(1, b.nbits - 1);
    forall s | s in f.loc
      ensures f.loc[s] != leaf
    {
      NotSymbol(t, f, b, d, leaf, s);
    }
    GrowLinked(t, f, b.half, b.nbits, leaf);
    GrowPlaced(t, f, b.half, b.nbits, b.first, b.lens, b.Pos(), leaf);
    GrowLabels(f, b.half, b.nbits, leaf);
  }

  // Where a code of length l may end, l-aligned positions are d-aligned.
  lemma EndAligned(lens: seq<Byte>, s: nat, d: nat)
    requires Coded(lens, s) && lens[s] <= d <= 16
    ensures Aligned(CodeStart(lens, s) + Width(lens[s]), 16 - d)
  {
    var e := CodeStart(lens, s) + Width(lens[s]);
    assert e == Before(lens, lens[s], s + 1);
    StartAligned(lens, lens[s], s + 1);
    AlignedWeaker(e, 16 - lens[s], 16 - d);
  }

  // An unaligned position shares its prefix with a code already placed.
  lemma SharedPrefix(b: Build, d: nat) returns (s: nat)
    requires b.Valid() && b.nbits <= d < b.l
    requires !Aligned(b.Pos(), 16 - d)
    ensures b.Done(s) && d < b.lens[s]
    ensures Shr(CodeStart(b.lens, s), 16 - d) == Shr(b.Pos(), 16 - d)
  {
    hide Shl, Shr, Before;
    var w := b.Pos();
    ShrBounds(w, 16 - d);
    s := FindSymbol(b.lens, b.l, b.n, w - 1);
    EarlierEnds(b.lens, s, b.l, b.n);
    var cs, k := CodeStart(b.lens, s), b.lens[s];
    if k <= d {
      EndAligned(b.lens, s, d);
      assert false;
    }
    StartAligned(b.lens, k, s);
    ShrUnique(Shr(cs, 16 - k), w - 1, 16 - k);
    ShrTwice(cs, 16 - k, k - d);
    ShrTwice(w - 1, 16 - k, k - d);
    ShlAdd(Shr(w, 16 - d), 1, 16 - d);
    ShrUnique(Shr(w, 16 - d), w - 1, 16 - d);
  }

  // A node is still missing exactly where the code opens a new subtree.
  lemma AllocIffAligned(t: seq<Word>, f: Forest, b: Build, d: nat, leaf: nat)
    requires b.Valid() && Walking(t, f, b, d, leaf) && d < b.l && b.Pos() < FULL
    ensures t[leaf] == 0 <==> Aligned(b.Pos(), 16 - d)
  {
    hide NodesOk, Placed, Shl, Shr, Before, Older;
    var w := b.Pos();
    EntryOnPath(t, f, b, d, leaf);
    HalfPositive(b);
    if b.half <= t[leaf] {
      NodeBelow(t, f, b.half, b.nbits, leaf);
      ShrBounds(w, 16 - d);
      OlderNode(f, w, d, t[leaf] - b.half);
    } else if !Aligned(w, 16 - d) {
      PathOpen(t, f, b, d, leaf);
    }
  }

  lemma HalfPositive(b: Build)
    requires b.Valid()
    ensures b.half > 0
  {
    ShlPositive(1, b.nbits - 1);
  }

  lemma OlderNode(f: Forest, w: nat, d: nat, k: nat)
    requires d <= 16 && Older(f, w, d) && k < |f.lab| && f.lab[k] == Top(w, d)
    ensures Shl(Shr(w, 16 - d), 16 - d) < w
  {
  }

  // At an unaligned position the way down goes on.
  lemma PathOpen(t: seq<Word>, f: Forest, b: Build, d: nat, leaf: nat)
    requires b.Valid() && Walking(t, f, b, d, leaf) && d < b.l && !Aligned(b.Pos(), 16 - d)
    ensures t[leaf] >= b.half
  {
    hide Shl, Shr, Before, Older, Distinct;
    var s := SharedPrefix(b, d);
    assert PlacedAt(t, f, b.half, b.nbits, b.lens, b.Pos(), s);
    var k := ChainUp(t, f, b.half, b.nbits, f.loc[s], d);
    ShrTwice(CodeStart(b.lens, s), 16 - b.lens[s], b.lens[s] - d);
    assert NodeAt(t, f, b.half, b.nbits, k);
    LabelInjective(t, f, b.half, b.nbits, f.par[k], leaf);
  }

  ghost function Hung(f: Forest, s: nat, leaf: nat): Forest {
    f.(loc := f.loc[s := leaf])
  }

  // At the full depth of the code the entry is still free.
  lemma LeafFree(t: seq<Word>, f: Forest, b: Build, leaf: nat)
    requires b.Valid() && Walking(t, f, b, b.l, leaf) && b.Pos() < FULL
    ensures t[leaf] == 0
  {
    EntryOnPath(t, f, b, b.l, leaf);
    StartAligned(b.lens, b.l, b.n);
    if b.half <= t[leaf] {
      NodeBelow(t, f, b.half, b.nbits, leaf);
      assert false;
    }
  }

  lemma OlderNext(f: Forest, w: nat, d: nat, w': nat, d': nat)
    requires d <= 16 && d' <= 16 && Older(f, w, d) && w < w'
    ensures Older(f, w', d')
  {
    forall k | 0 <= k < |f.lab|
      ensures f.lab[k].d < 16 && Low(f.lab[k]) < w'
    {
      ShrBounds(w, 16 - f.lab[k].d);
    }
  }

  lemma NotYetPlaced(t: seq<Word>, f: Forest, b: Build, leaf: nat)
    requires b.Valid() && Walking(t, f, b, b.l, leaf)
    requires b.n < |b.lens| && b.lens[b.n] == b.l
    ensures b.n !in f.loc
    ensures forall s :: s in Hung(f, b.n, leaf).loc <==> b.(n := b.n + 1).Done(s)
  {
    assert !b.Done(b.n);
  }

  lemma PlaceLinked(t: seq<Word>, f: Forest, half: nat, nbits: nat, leaf: nat, s: nat)
    requires Linked(t, f, half, nbits) && leaf < |t| && t[leaf] == 0 && s < half < 65536
    ensures Linked(t[leaf := s], Hung(f, s, leaf), half, nbits)
  {
    var t', g := t[leaf := s], Hung(f, s, leaf);
    forall k | 0 <= k < |f.lab|
      ensures NodeAt(t', g, half, nbits, k)
    {
      assert NodeAt(t, f, half, nbits, k);
      assert Label(f, half, nbits, f.par[k]) == Label(g, half, nbits, f.par[k]);
    }
    forall e | 0 <= e < 2 * half + 2 * |f.lab|
      ensures EntryAt(t', g, half, e)
    {
      assert EntryAt(t, f, half, e);
    }
  }

  lemma SymbolPlaced(t: seq<Word>, f: Forest, b: Build, leaf: nat, s: nat)
    requires b.Valid() && Walking(t, f, b, b.l, leaf) && t[leaf] == 0
    requires b.n < |b.lens| && b.lens[b.n] == b.l && b.half < 65536 && (s in f.loc || s == b.n)
    ensures PlacedAt(t[leaf := b.n], Hung(f, b.n, leaf), b.half, b.nbits, b.lens, b.Pos() + Width(b.l), s)
  {
    hide NodesOk, Older, Shl, Shr, Before;
    var g := Hung(f, b.n, leaf);
    NotYetPlaced(t, f, b, leaf);
    LongLeaf(t, f, b, leaf);
    if s in f.loc {
      assert PlacedAt(t, f, b.half, b.nbits, b.lens, b.Pos(), s);
      NotSymbol(t, f, b, b.l, leaf, s);
      assert Label(g, b.half, b.nbits, f.loc[s]) == Label(f, b.half, b.nbits, f.loc[s]);
    } else {
      assert Label(g, b.half, b.nbits, leaf) == Label(f, b.half, b.nbits, leaf);
    }
  }

  // A code longer than nbits does not end at a direct entry.
  lemma LongLeaf(t: seq<Word>, f: Forest, b: Build, leaf: nat)
    requires b.Valid() && Walking(t, f, b, b.l, leaf)
    ensures 2 * b.half <= leaf
  {
    hide NodesOk, Placed, Older, Shl, Shr, Before;
  }

  lemma EntryHeld(t: seq<Word>, f: Forest, b: Build, leaf: nat, e: nat)
    requires b.Valid() && Walking(t, f, b, b.l, leaf) && t[leaf] == 0 && b.n !in f.loc
    requires b.n < |b.lens| && b.lens[b.n] == b.l && b.half < 65536 && e < 2 * b.half + 2 * |f.lab|
    ensures HeldAt(t[leaf := b.n], Hung(f, b.n, leaf), b.half, b.first, e)
  {
    hide NodesOk, Older, Shl, Shr, Before;
    LongLeaf(t, f, b, leaf);
    assert HeldAt(t, f, b.half, b.first, e);
  }

  lemma PlacePlaced(t: seq<Word>, f: Forest, b: Build, leaf: nat)
    requires b.Valid() && Walking(t, f, b, b.l, leaf) && t[leaf] == 0
    requires b.n < |b.lens| && b.lens[b.n] == b.l && b.half < 65536
    ensures Bounded(t[leaf := b.n], b.half + |f.lab|)
    ensures Placed(t[leaf := b.n], Hung(f, b.n, leaf), b.half, b.nbits, b.first, b.lens, b.Pos() + Width(b.l))
  {
    hide NodesOk, Older, Shl, Shr, Before, PlacedAt, HeldAt;
    var t', g := t[leaf := b.n], Hung(f, b.n, leaf);
    forall s | s in g.loc
      ensures PlacedAt(t', g, b.half, b.nbits, b.lens, b.Pos() + Width(b.l), s)
    {
      SymbolPlaced(t, f, b, leaf, s);
    }
    NotYetPlaced(t, f, b, leaf);
    forall e | 0 <= e < 2 * b.half + 2 * |f.lab|
      ensures HeldAt(t', g, b.half, b.first, e)
    {
      EntryHeld(t, f, b, leaf, e);
    }
  }
}
