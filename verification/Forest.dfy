/** The overflow trees of the decode table: entry pairs allocated behind the
    2^nbits direct entries, seen as a forest whose entries carry the bit
    prefixes that lead to them. */
module Forest {
  import opened Shifts
  import opened Canonical

  type Word = x: int | 0 <= x < 65536

  // The first d bits, as a number.
  datatype Prefix = Prefix(d: nat, v: nat)

  // Node half+k was allocated for the prefix lab[k] and hangs off entry par[k];
  // loc says where the long symbols placed so far ended up.
  datatype Forest = Forest(lab: seq<Prefix>, par: seq<nat>, loc: map<nat, nat>)

  ghost function Top(w: nat, d: nat): Prefix
    requires d <= 16
  {
    Prefix(d, Shr(w, 16 - d))
  }

  // The first window below a prefix.
  ghost function Low(p: Prefix): nat
    requires p.d <= 16
  {
    Shl(p.v, 16 - p.d)
  }

  ghost function Label(f: Forest, half: nat, nbits: nat, e: nat): Prefix
    requires e < 2 * half + 2 * |f.lab|
  {
    if e < 2 * half then Prefix(nbits, e)
    else
      var p := f.lab[(e - 2 * half) / 2];
      Prefix(p.d + 1, 2 * p.v + e % 2)
  }

  // Entries below 2*next hold only symbols (below half) or allocated nodes.
  ghost predicate Bounded(t: seq<Word>, next: nat) {
    2 * next <= |t| && forall e :: 0 <= e < 2 * next ==> t[e] < next
  }

  // Node half+k hangs off an earlier entry, which leads to its prefix.
  ghost predicate NodeAt(t: seq<Word>, f: Forest, half: nat, nbits: nat, k: nat)
    requires k < |f.lab| == |f.par| && 2 * half + 2 * |f.lab| <= |t|
  {
    && nbits <= f.lab[k].d < 16
    && f.par[k] < 2 * half + 2 * k
    && t[f.par[k]] == half + k
    && Label(f, half, nbits, f.par[k]) == f.lab[k]
  }

  // An entry that leads to a node is the one that node hangs off.
  ghost predicate EntryAt(t: seq<Word>, f: Forest, half: nat, e: nat)
    requires |f.lab| == |f.par| && e < |t| && t[e] < half + |f.lab|
  {
    t[e] >= half ==> f.par[t[e] - half] == e
  }

  ghost predicate Distinct(lab: seq<Prefix>) {
    forall j, k :: 0 <= j < k < |lab| ==> lab[j] != lab[k]
  }

  ghost predicate NodesOk(t: seq<Word>, f: Forest, half: nat, nbits: nat)
    requires Bounded(t, half + |f.lab|)
  {
    && |f.par| == |f.lab|
    && (forall k :: 0 <= k < |f.lab| ==> NodeAt(t, f, half, nbits, k))
    && (forall e :: 0 <= e < 2 * half + 2 * |f.lab| ==> EntryAt(t, f, half, e))
    && Distinct(f.lab)
  }

  ghost predicate Linked(t: seq<Word>, f: Forest, half: nat, nbits: nat) {
    Bounded(t, half + |f.lab|) && NodesOk(t, f, half, nbits)
  }

  // The labels of nodes are longer than those of direct entries, and distinct.
  lemma NodeLabel(t: seq<Word>, f: Forest, half: nat, nbits: nat, j: nat)
    requires Linked(t, f, half, nbits) && j < |f.lab|
    ensures nbits <= f.lab[j].d
    ensures forall k :: 0 <= k < |f.lab| && f.lab[k] == f.lab[j] ==> k == j
  {
    assert NodeAt(t, f, half, nbits, j);
  }

  lemma LabelInjective(t: seq<Word>, f: Forest, half: nat, nbits: nat, a: nat, b: nat)
    requires Linked(t, f, half, nbits)
    requires a < 2 * half + 2 * |f.lab| && b < 2 * half + 2 * |f.lab|
    requires Label(f, half, nbits, a) == Label(f, half, nbits, b)
    ensures a == b
  {
    hide NodesOk;
    if a >= 2 * half {
      NodeLabel(t, f, half, nbits, (a - 2 * half) / 2);
    }
    if b >= 2 * half {
      NodeLabel(t, f, half, nbits, (b - 2 * half) / 2);
    }
  }

  // Above an entry for a long prefix there is a node for each shorter one.
  lemma {:induction false} ChainUp(t: seq<Word>, f: Forest, half: nat, nbits: nat, e: nat, d: nat)
    returns (k: nat)
    requires Linked(t, f, half, nbits)
    requires e < 2 * half + 2 * |f.lab| && nbits <= d < Label(f, half, nbits, e).d
    ensures k < |f.lab|
    ensures var p := Label(f, half, nbits, e); f.lab[k] == Prefix(d, Shr(p.v, p.d - d))
    decreases e
  {
    var p := Label(f, half, nbits, e);
    k := (e - 2 * half) / 2;
    assert NodeAt(t, f, half, nbits, k);
    assert p.v / 2 == f.lab[k].v && p.d == f.lab[k].d + 1;
    ShrTwice(p.v, 1, p.d - 1 - d);
    assert Shr(p.v, 1) == p.v / 2;
    if d < f.lab[k].d {
      k := ChainUp(t, f, half, nbits, f.par[k], d);
    }
  }

  // The table after one allocation, as the three assignments leave it.
  ghost function Grown(t: seq<Word>, next: nat, leaf: nat): seq<Word>
    requires 2 * next + 1 < |t| && leaf < |t| && next < 65536
  {
    t[2 * next := 0][2 * next + 1 := 0][leaf := next]
  }

  ghost function GrownForest(f: Forest, half: nat, nbits: nat, leaf: nat): Forest
    requires leaf < 2 * half + 2 * |f.lab|
  {
    f.(lab := f.lab + [Label(f, half, nbits, leaf)], par := f.par + [leaf])
  }

  lemma GrowBounded(t: seq<Word>, next: nat, leaf: nat)
    requires Bounded(t, next) && leaf < 2 * next && 2 * next + 1 < |t| && next < 65536
    ensures Bounded(Grown(t, next, leaf), next + 1)
  {
  }

  lemma GrowLabels(f: Forest, half: nat, nbits: nat, leaf: nat)
    requires leaf < 2 * half + 2 * |f.lab|
    ensures var g := GrownForest(f, half, nbits, leaf);
      forall e :: 0 <= e < 2 * half + 2 * |f.lab| ==> Label(g, half, nbits, e) == Label(f, half, nbits, e)
  {
  }

  lemma GrowNode(t: seq<Word>, f: Forest, half: nat, nbits: nat, leaf: nat, k: nat)
    requires Bounded(t, half + |f.lab|) && |f.par| == |f.lab| && k < |f.lab|
    requires 2 * half + 2 * |f.lab| + 1 < |t| && half + |f.lab| < 65536
    requires leaf < 2 * half + 2 * |f.lab| && f.par[k] != leaf
    requires NodeAt(t, f, half, nbits, k)
    ensures NodeAt(Grown(t, half + |f.lab|, leaf), GrownForest(f, half, nbits, leaf), half, nbits, k)
  {
    GrowLabels(f, half, nbits, leaf);
  }

  lemma GrowFresh(t: seq<Word>, f: Forest, half: nat, nbits: nat, leaf: nat, k: nat)
    requires Linked(t, f, half, nbits) && 0 < half
    requires leaf < 2 * half + 2 * |f.lab| && t[leaf] == 0 && k < |f.lab|
    ensures f.par[k] != leaf && f.lab[k] != Label(f, half, nbits, leaf)
  {
    assert NodeAt(t, f, half, nbits, k);
    if f.lab[k] == Label(f, half, nbits, leaf) {
      LabelInjective(t, f, half, nbits, f.par[k], leaf);
    }
  }

  lemma GrowLinked(t: seq<Word>, f: Forest, half: nat, nbits: nat, leaf: nat)
    requires Linked(t, f, half, nbits) && 0 < half
    requires 2 * half + 2 * |f.lab| + 1 < |t| && half + |f.lab| < 65536
    requires leaf < 2 * half + 2 * |f.lab| && t[leaf] == 0
    requires nbits <= Label(f, half, nbits, leaf).d < 16
    ensures Linked(Grown(t, half + |f.lab|, leaf), GrownForest(f, half, nbits, leaf), half, nbits)
  {
    var n := |f.lab|;
    var t', g := Grown(t, half + n, leaf), GrownForest(f, half, nbits, leaf);
    GrowBounded(t, half + n, leaf);
    forall k | 0 <= k < n + 1
      ensures NodeAt(t', g, half, nbits, k)
    {
      if k < n {
        GrowFresh(t, f, half, nbits, leaf, k);
        GrowNode(t, f, half, nbits, leaf, k);
      } else {
        GrowLabels(f, half, nbits, leaf);
      }
    }
    forall e | 0 <= e < 2 * half + 2 * (n + 1)
      ensures EntryAt(t', g, half, e)
    {
      assert e < 2 * half + 2 * n ==> EntryAt(t, f, half, e);
    }
    forall k | 0 <= k < n
      ensures f.lab[k] != g.lab[n]
    {
      GrowFresh(t, f, half, nbits, leaf, k);
    }
  }

  // A long symbol sits where its codeword leads, and its code ends by window w.
  ghost predicate PlacedAt(t: seq<Word>, f: Forest, half: nat, nbits: nat, lens: seq<Byte>, w: nat, s: nat)
    requires s in f.loc && 2 * half + 2 * |f.lab| <= |t|
  {
    && Coded(lens, s) && nbits < lens[s]
    && 2 * half <= f.loc[s] < 2 * half + 2 * |f.lab|
    && t[f.loc[s]] == s
    && Label(f, half, nbits, f.loc[s]) == Top(CodeStart(lens, s), lens[s])
    && CodeStart(lens, s) + Width(lens[s]) <= w
  }

  // Behind the direct entries of the short codes, an entry holds 0, a node, or
  // a symbol placed there.
  ghost predicate HeldAt(t: seq<Word>, f: Forest, half: nat, first: nat, e: nat)
    requires e < |t|
  {
    first <= e && 0 < t[e] < half ==> 2 * half <= e && t[e] in f.loc && f.loc[t[e]] == e
  }

  ghost predicate Placed(t: seq<Word>, f: Forest, half: nat, nbits: nat, first: nat, lens: seq<Byte>, w: nat)
    requires Bounded(t, half + |f.lab|)
  {
    && (forall s :: s in f.loc ==> PlacedAt(t, f, half, nbits, lens, w, s))
    && (forall e :: 0 <= e < 2 * half + 2 * |f.lab| ==> HeldAt(t, f, half, first, e))
  }

  // Every node was made for a prefix that some window below w has, or, while a
  // symbol at w is being placed, for one of the first prefixes of w.
  ghost predicate OlderAt(p: Prefix, w: nat, d: nat)
    requires d <= 16
  {
    p.d < 16 && (Low(p) < w || (p.d < d && p == Top(w, p.d)))
  }

  ghost predicate Older(f: Forest, w: nat, d: nat)
    requires d <= 16
  {
    forall k :: 0 <= k < |f.lab| ==> OlderAt(f.lab[k], w, d)
  }

  lemma GrowPlaced(t: seq<Word>, f: Forest, half: nat, nbits: nat, first: nat, lens: seq<Byte>, w: nat, leaf: nat)
    requires Linked(t, f, half, nbits) && Placed(t, f, half, nbits, first, lens, w) && |lens| <= half
    requires 2 * half + 2 * |f.lab| + 1 < |t| && half + |f.lab| < 65536
    requires leaf < 2 * half + 2 * |f.lab| && t[leaf] == 0
    requires forall s :: s in f.loc ==> f.loc[s] != leaf
    ensures var t' := Grown(t, half + |f.lab|, leaf);
      Bounded(t', half + |f.lab| + 1)
      && Placed(t', GrownForest(f, half, nbits, leaf), half, nbits, first, lens, w)
  {
    var t', g := Grown(t, half + |f.lab|, leaf), GrownForest(f, half, nbits, leaf);
    GrowBounded(t, half + |f.lab|, leaf);
    GrowLabels(f, half, nbits, leaf);
    forall s | s in g.loc
      ensures PlacedAt(t', g, half, nbits, lens, w, s)
    {
      assert PlacedAt(t, f, half, nbits, lens, w, s);
    }
    forall e | 0 <= e < 2 * half + 2 * |g.lab|
      ensures HeldAt(t', g, half, first, e)
    {
      assert e < 2 * half + 2 * |f.lab| ==> HeldAt(t, f, half, first, e);
    }
  }
}
