/** The directory seen as a tree of pages: an index of some depth over leaves
    that are chained in the same order. */
module PageTree {
  import opened Wrappers
  import opened Canonical
  import opened CaseFold
  import opened DirPages

  // What a page holds, once its bytes are read: foreign when it cannot be
  // fetched or has neither marker, damaged when it has one and does not parse.
  datatype Page = Leaf(entries: seq<Entry>, next: int) | Index(items: seq<Item>) | Foreign | Damaged

  type Pages = int -> Page

  ghost function EntriesOn(d: Pages, n: int): seq<Entry> {
    if n != -1 && d(n).Leaf? then d(n).entries else []
  }

  // Page n is the root of an index of the given depth, and each item carries
  // the least name below its page.
  ghost predicate Tree(d: Pages, n: int, depth: nat)
    decreases depth, 0
  {
    n != -1 &&
    if depth == 0 then d(n).Leaf? && d(n).entries != []
    else d(n).Index? && d(n).items != [] && Trees(d, d(n).items, depth - 1)
  }

  ghost predicate Trees(d: Pages, items: seq<Item>, depth: nat)
    decreases depth, 1, |items|
  {
    items == [] || (TreeBelow(d, items[0], depth) && Trees(d, items[1..], depth))
  }

  ghost predicate TreeBelow(d: Pages, item: Item, depth: nat)
    decreases depth, 1, 0
  {
    && Tree(d, item.page, depth)
    && EntriesBelow(d, item.page, depth) != []
    && StrCaseCmp(item.name, EntriesBelow(d, item.page, depth)[0].path) == 0
  }

  // The leaves below a page, from left to right.
  ghost function Leaves(d: Pages, n: int, depth: nat): seq<int>
    decreases depth, 0
  {
    if depth == 0 then [n]
    else if d(n).Index? then LeavesOf(d, d(n).items, depth - 1)
    else []
  }

  ghost function LeavesOf(d: Pages, items: seq<Item>, depth: nat): seq<int>
    decreases depth, 1, |items|
  {
    if items == [] then [] else Leaves(d, items[0].page, depth) + LeavesOf(d, items[1..], depth)
  }

  ghost function EntriesOf(d: Pages, ns: seq<int>): seq<Entry>
    decreases |ns|
  {
    if ns == [] then [] else EntriesOn(d, ns[0]) + EntriesOf(d, ns[1..])
  }

  ghost function EntriesBelow(d: Pages, n: int, depth: nat): seq<Entry>
    decreases depth, 0, 1
  {
    EntriesOf(d, Leaves(d, n, depth))
  }

  // The leaves are linked in this order, from page n to the end.
  ghost predicate Chain(d: Pages, n: int, ns: seq<int>)
    decreases |ns|
  {
    if ns == [] then n == -1
    else n != -1 && n == ns[0] && d(n).Leaf? && Chain(d, d(n).next, ns[1..])
  }

  ghost predicate Sorted(es: seq<Entry>) {
    forall i, j :: 0 <= i < j < |es| ==> StrCaseCmp(es[i].path, es[j].path) < 0
  }

  /** A directory as the format describes it: an index of some depth over leaves
      that are chained in the same order, all names distinct and in order. */
  ghost predicate WellFormed(d: Pages, root: int, head: int, depth: nat) {
    && Tree(d, root, depth)
    && Chain(d, head, Leaves(d, root, depth))
    && Sorted(EntriesBelow(d, root, depth))
  }

  // The linear scan: the first entry with the name on the chain from a page.
  ghost function Scan(d: Pages, ns: seq<int>, path: seq<Byte>): Option<Entry>
    decreases |ns|
  {
    if ns == [] then None
    else if Search(EntriesOn(d, ns[0]), path).Some? then Search(EntriesOn(d, ns[0]), path)
    else Scan(d, ns[1..], path)
  }

  // The descent through the index.
  ghost function Resolve(d: Pages, n: int, depth: nat, path: seq<Byte>): Option<Entry>
    decreases depth
  {
    if n == -1 then None
    else if d(n).Leaf? then Search(d(n).entries, path)
    else if d(n).Index? && depth > 0 then Resolve(d, Choose(d(n).items, path, -1), depth - 1, path)
    else None
  }

  // The descent ends within depth index pages, and meets no damaged page.
  ghost predicate Descends(d: Pages, n: int, depth: nat, path: seq<Byte>)
    decreases depth
  {
    n == -1 || match d(n)
    case Leaf(_, _) => true
    case Foreign => true
    case Damaged => false
    case Index(items) => depth > 0 && Descends(d, Choose(items, path, -1), depth - 1, path)
  }

  // ---------- entries of several pages ----------

  lemma {:induction false} EntriesOfAppend(d: Pages, a: seq<int>, b: seq<int>)
    ensures EntriesOf(d, a + b) == EntriesOf(d, a) + EntriesOf(d, b)
    decreases |a|
  {
    hide EntriesOn;
    if a == [] {
      assert a + b == b;
    } else {
      assert (a + b)[1..] == a[1..] + b;
      EntriesOfAppend(d, a[1..], b);
    }
  }

  lemma SplitItems(d: Pages, items: seq<Item>, depth: nat)
    requires items != []
    ensures EntriesOf(d, LeavesOf(d, items, depth)) ==
      EntriesBelow(d, items[0].page, depth) + EntriesOf(d, LeavesOf(d, items[1..], depth))
  {
    EntriesOfAppend(d, Leaves(d, items[0].page, depth), LeavesOf(d, items[1..], depth));
  }

  lemma SingleLeaf(d: Pages, n: int)
    ensures EntriesBelow(d, n, 0) == EntriesOn(d, n)
  {
    assert EntriesOf(d, [n]) == EntriesOn(d, n) + EntriesOf(d, []);
  }

  lemma {:induction false} SearchAppend(a: seq<Entry>, b: seq<Entry>, path: seq<Byte>)
    ensures Search(a + b, path) == if Search(a, path).Some? then Search(a, path) else Search(b, path)
    decreases |a|
  {
    hide StrCaseCmp;
    if a == [] {
      assert a + b == b;
    } else {
      assert (a + b)[1..] == a[1..] + b;
      SearchAppend(a[1..], b, path);
    }
  }

  lemma {:induction false} ScanIsSearch(d: Pages, ns: seq<int>, path: seq<Byte>)
    ensures Scan(d, ns, path) == Search(EntriesOf(d, ns), path)
    decreases |ns|
  {
    hide EntriesOn, StrCaseCmp;
    if ns == [] {
    } else {
      SearchAppend(EntriesOn(d, ns[0]), EntriesOf(d, ns[1..]), path);
      ScanIsSearch(d, ns[1..], path);
    }
  }

  // ---------- sorted names ----------

  lemma {:induction false} SearchNone(es: seq<Entry>, path: seq<Byte>)
    requires forall i :: 0 <= i < |es| ==> StrCaseCmp(es[i].path, path) != 0
    ensures Search(es, path) == None
    decreases |es|
  {
    hide StrCaseCmp;
    if es != [] {
      SearchNone(es[1..], path);
    }
  }

  lemma NameTransitive(a: seq<Byte>, b: seq<Byte>, c: seq<Byte>)
    requires StrCaseCmp(a, b) < 0 && StrCaseCmp(b, c) <= 0
    ensures StrCaseCmp(a, c) < 0
  {
    CompareTransitive(Fold(a), Fold(b), Fold(c));
  }

  lemma NameOpposite(a: seq<Byte>, b: seq<Byte>)
    ensures StrCaseCmp(a, b) < 0 <==> StrCaseCmp(b, a) > 0
  {
    CompareOpposite(Fold(a), Fold(b));
  }

  lemma SameName(a: seq<Byte>, b: seq<Byte>, path: seq<Byte>)
    requires StrCaseCmp(a, b) == 0
    ensures StrCaseCmp(a, path) == StrCaseCmp(b, path)
  {
    CompareZero(Fold(a), Fold(b));
  }

  // Entries before one that is not above the name, or from one that is above it.
  lemma NoneBelow(prev: seq<Entry>, rest: seq<Entry>, path: seq<Byte>)
    requires Sorted(prev + rest) && rest != [] && StrCaseCmp(rest[0].path, path) <= 0
    ensures Search(prev, path) == None
  {
    hide StrCaseCmp;
    forall i | 0 <= i < |prev|
      ensures StrCaseCmp(prev[i].path, path) != 0
    {
      var es := prev + rest;
      assert StrCaseCmp(es[i].path, es[|prev|].path) < 0;
      NameTransitive(prev[i].path, rest[0].path, path);
    }
    SearchNone(prev, path);
  }

  lemma NoneAbove(rest: seq<Entry>, path: seq<Byte>)
    requires Sorted(rest) && rest != [] && StrCaseCmp(rest[0].path, path) > 0
    ensures Search(rest, path) == None
  {
    hide StrCaseCmp;
    NameOpposite(path, rest[0].path);
    forall i | 0 <= i < |rest|
      ensures StrCaseCmp(rest[i].path, path) != 0
    {
      if i > 0 {
        assert StrCaseCmp(rest[0].path, rest[i].path) < 0;
        NameTransitive(path, rest[0].path, rest[i].path);
        NameOpposite(path, rest[i].path);
      }
    }
    SearchNone(rest, path);
  }

  lemma SortedParts(a: seq<Entry>, b: seq<Entry>)
    requires Sorted(a + b)
    ensures Sorted(a) && Sorted(b)
  {
    hide StrCaseCmp;
    var es := a + b;
    forall i, j | 0 <= i < j < |a|
      ensures StrCaseCmp(a[i].path, a[j].path) < 0
    {
      assert es[i] == a[i] && es[j] == a[j];
    }
    forall i, j | 0 <= i < j < |b|
      ensures StrCaseCmp(b[i].path, b[j].path) < 0
    {
      assert es[|a| + i] == b[i] && es[|a| + j] == b[j];
    }
  }

  lemma TreeIsPage(d: Pages, n: int, depth: nat)
    requires Tree(d, n, depth)
    ensures n != -1
  {
  }

  // ---------- the index agrees with the scan ----------

  // The items of one index page: of the page looked at last, holding prev, and
  // those of the items to come, only the chosen page can hold the name.
  lemma {:induction false} ChooseFinds(d: Pages, items: seq<Item>, depth: nat, path: seq<Byte>, page: int,
                                       prev: seq<Entry>)
    requires Trees(d, items, depth)
    requires Sorted(prev + EntriesOf(d, LeavesOf(d, items, depth)))
    requires if page == -1 then prev == [] else Tree(d, page, depth) && prev == EntriesBelow(d, page, depth)
    ensures var c := Choose(items, path, page);
      && (c != -1 ==> Tree(d, c, depth) && Sorted(EntriesBelow(d, c, depth)))
      && Search(prev + EntriesOf(d, LeavesOf(d, items, depth)), path)
        == if c == -1 then None else Search(EntriesBelow(d, c, depth), path)
    decreases |items|
  {
    hide StrCaseCmp, Search, Tree, EntriesBelow, Sorted;
    var rest := EntriesOf(d, LeavesOf(d, items, depth));
    SearchAppend(prev, rest, path);
    SortedParts(prev, rest);
    SearchNone([], path);
    if items != [] {
      var n := items[0].page;
      SplitItems(d, items, depth);
      SameName(items[0].name, EntriesBelow(d, n, depth)[0].path, path);
      if StrCaseCmp(items[0].name, path) > 0 {
        NoneAbove(rest, path);
      } else {
        NoneBelow(prev, rest, path);
        TreeIsPage(d, n, depth);
        ChooseFinds(d, items[1..], depth, path, n, EntriesBelow(d, n, depth));
      }
    }
  }

  /** Following the index finds the same entry as searching the leaves below the
      page one after the other, or fails like it. */
  lemma {:induction false} ResolveIsSearch(d: Pages, n: int, depth: nat, path: seq<Byte>)
    requires Tree(d, n, depth) && Sorted(EntriesBelow(d, n, depth))
    ensures Resolve(d, n, depth, path) == Search(EntriesBelow(d, n, depth), path)
    decreases depth
  {
    hide Search, Sorted, StrCaseCmp, Trees, LeavesOf, EntriesOf;
    if depth == 0 {
      SingleLeaf(d, n);
    } else {
      var items := d(n).items;
      assert [] + EntriesBelow(d, n, depth) == EntriesBelow(d, n, depth);
      ChooseFinds(d, items, depth - 1, path, -1, []);
      var c := Choose(items, path, -1);
      if c != -1 {
        ResolveIsSearch(d, c, depth - 1, path);
      }
    }
  }

  // The page chosen from a tree's index page is again a tree.
  lemma {:induction false} ChooseInTree(d: Pages, items: seq<Item>, path: seq<Byte>, page: int, depth: nat)
    requires Trees(d, items, depth)
    ensures var c := Choose(items, path, page); c == page || Tree(d, c, depth)
    decreases |items|
  {
    hide StrCaseCmp, Tree, EntriesBelow;
    if items != [] && StrCaseCmp(items[0].name, path) <= 0 {
      ChooseInTree(d, items[1..], path, items[0].page, depth);
    }
  }

  lemma {:induction false} TreeDescends(d: Pages, n: int, depth: nat, path: seq<Byte>)
    requires Tree(d, n, depth)
    ensures Descends(d, n, depth, path)
    decreases depth
  {
    hide Trees, Choose;
    if depth > 0 {
      ChooseInTree(d, d(n).items, path, -1, depth - 1);
      var c := Choose(d(n).items, path, -1);
      if c != -1 {
        TreeDescends(d, c, depth - 1, path);
      }
    }
  }

  /** The whole directory: the index agrees with the linear scan of the chain. */
  lemma ResolveIsScan(d: Pages, root: int, head: int, depth: nat, path: seq<Byte>)
    requires WellFormed(d, root, head, depth)
    ensures Descends(d, root, depth, path)
    ensures Resolve(d, root, depth, path) == Scan(d, Leaves(d, root, depth), path)
  {
    TreeDescends(d, root, depth, path);
    ResolveIsSearch(d, root, depth, path);
    ScanIsSearch(d, Leaves(d, root, depth), path);
  }

  /** The chain from a page is unique, so the scan depends only on the head. */
  lemma {:induction false} OneChain(d: Pages, n: int, ns: seq<int>, ms: seq<int>)
    requires Chain(d, n, ns) && Chain(d, n, ms)
    ensures ns == ms
    decreases |ns|
  {
    if ns != [] {
      OneChain(d, d(n).next, ns[1..], ms[1..]);
    }
  }

  // In sorted entries the search finds the one with the name.
  lemma SearchFinds(es: seq<Entry>, path: seq<Byte>, i: nat)
    requires Sorted(es) && i < |es| && StrCaseCmp(es[i].path, path) == 0
    ensures Search(es, path) == Some(es[i])
  {
    hide StrCaseCmp;
    assert es[..i] + es[i..] == es;
    NoneBelow(es[..i], es[i..], path);
    SearchAppend(es[..i], es[i..], path);
  }

  /** Whatever walking the chain lists, looking up its name finds. */
  lemma ListedIsFound(d: Pages, root: int, head: int, depth: nat, ns: seq<int>, i: nat)
    requires WellFormed(d, root, head, depth) && Chain(d, head, ns) && i < |EntriesOf(d, ns)|
    ensures var e := EntriesOf(d, ns)[i]; Resolve(d, root, depth, e.path) == Some(e)
  {
    hide EntriesOf, Leaves, Tree, Sorted;
    var e := EntriesOf(d, ns)[i];
    OneChain(d, head, ns, Leaves(d, root, depth));
    ResolveIsSearch(d, root, depth, e.path);
    CompareZero(Fold(e.path), Fold(e.path));
    SearchFinds(EntriesOf(d, ns), e.path, i);
  }
}
