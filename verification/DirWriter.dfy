/** A directory as it is written: what the bytes of an entry, an item or a page are, and
    that they are read back as just that. */
module DirWriter {
  import opened Wrappers
  import opened Arith
  import opened Canonical
  import opened LittleEndian
  import opened CaseFold
  import opened Cword
  import opened DirPages
  import opened PageTree
  import opened Directory

  // A signed number of 32 bits as the word that is written for it.
  function Unsigned32(v: int): (u: nat)
    requires -0x8000_0000 <= v < 0x8000_0000
    ensures u < 0x1_0000_0000
  {
    if v < 0 then v + 0x1_0000_0000 else v
  }

  predicate EntryFits(e: Entry) {
    && |e.path| <= 512 && -0x8000_0000 <= e.space < 0x8000_0000
    && e.start < 0x1_0000_0000_0000_0000 && e.length < 0x1_0000_0000_0000_0000
  }

  predicate ItemFits(e: Item) {
    |e.name| <= 512 && -0x8000_0000 <= e.page < 0x8000_0000
  }

  // Length and bytes of the name, section, offset and length.
  function WriteEntry(e: Entry): (s: seq<Byte>)
    requires EntryFits(e)
  {
    Encode(|e.path|) + e.path + Encode(Unsigned32(e.space)) + Encode(e.start) + Encode(e.length)
  }

  function WriteItem(e: Item): (s: seq<Byte>)
    requires ItemFits(e)
  {
    Encode(|e.name|) + e.name + Encode(Unsigned32(e.page))
  }

  lemma NameReads(a: seq<Byte>, name: seq<Byte>, b: seq<Byte>)
    requires |name| < UINT64_MOD
    ensures var p := a + Encode(|name|) + name + b;
      && (|name| <= 512 ==> ReadName(p, |a|) == Name(name, |a| + |Encode(|name|)| + |name|))
      && (|name| > 512 ==> ReadName(p, |a|) == LongName)
  {
    hide Parse, Encode;
    var p, at := a + Encode(|name|) + name + b, |a| + |Encode(|name|)|;
    assert p == a + Encode(|name|) + (name + b);
    ParseEncode(a, |name|, name + b);
    assert p[at..at + |name|] == name;
  }

  // A word wherever it stands.
  lemma WordReads(p: seq<Byte>, cur: nat, n: nat, rest: seq<Byte>)
    requires n < UINT64_MOD && cur <= |p| && p[cur..] == Encode(n) + rest
    ensures Parse(p, cur, 0) == Some(Parsed(n, cur + |Encode(n)|)) && p[cur + |Encode(n)|..] == rest
  {
    hide Parse, Encode;
    assert p == p[..cur] + Encode(n) + rest;
    ParseEncode(p[..cur], n, rest);
  }

  lemma Space(v: int)
    requires -0x8000_0000 <= v < 0x8000_0000
    ensures ToInt32(Unsigned32(v)) == v
  {
  }

  lemma NameFound(p: seq<Byte>, cur: nat, name: seq<Byte>, rest: seq<Byte>)
    requires |name| <= 512 && cur <= |p| && p[cur..] == Encode(|name|) + name + rest
    ensures var next := cur + |Encode(|name|)| + |name|;
      next <= |p| && NameAt(p, cur) == Some((name, next)) && p[next..] == rest
  {
    hide Parse, Encode;
    assert p == p[..cur] + Encode(|name|) + name + rest;
    NameReads(p[..cur], name, rest);
  }

  /** An entry is read back whole, whatever stands around it, and the cursor goes behind
      it. */
  lemma EntryReads(p: seq<Byte>, cur: nat, e: Entry, rest: seq<Byte>)
    requires EntryFits(e) && cur <= |p| && p[cur..] == WriteEntry(e) + rest
    ensures EntryAt(p, cur) == Some((e, cur + |WriteEntry(e)|)) && p[cur + |WriteEntry(e)|..] == rest
  {
    hide Parse, Encode, ToInt32, NameAt, Unsigned32;
    var space, start, length := Encode(Unsigned32(e.space)), Encode(e.start), Encode(e.length);
    var data := space + start + length + rest;
    assert p[cur..] == Encode(|e.path|) + e.path + data;
    NameFound(p, cur, e.path, data);
    var at := cur + |Encode(|e.path|)| + |e.path|;
    assert p[at..] == space + (start + length + rest);
    WordReads(p, at, Unsigned32(e.space), start + length + rest);
    assert start + length + rest == start + (length + rest);
    WordReads(p, at + |space|, e.start, length + rest);
    WordReads(p, at + |space| + |start|, e.length, rest);
    Space(e.space);
  }

  lemma ItemReads(p: seq<Byte>, cur: nat, e: Item, rest: seq<Byte>)
    requires ItemFits(e) && cur <= |p| && p[cur..] == WriteItem(e) + rest
    ensures ItemAt(p, cur) == Some((e, cur + |WriteItem(e)|)) && p[cur + |WriteItem(e)|..] == rest
  {
    hide Parse, Encode, ToInt32, NameAt, Unsigned32;
    var page := Encode(Unsigned32(e.page));
    assert p[cur..] == Encode(|e.name|) + e.name + (page + rest);
    NameFound(p, cur, e.name, page + rest);
    WordReads(p, cur + |Encode(|e.name|)| + |e.name|, Unsigned32(e.page), rest);
    Space(e.page);
  }

  /** A name of more than 512 bytes is refused. */
  lemma LongNameRefused(p: seq<Byte>, cur: nat, n: nat, rest: seq<Byte>)
    requires 512 < n < 0x1_0000_0000_0000_0000 && cur <= |p| && p[cur..] == Encode(n) + rest
    ensures ReadName(p, cur) == LongName
  {
    hide Parse, Encode;
    WordReads(p, cur, n, rest);
  }

  /** The bytes 01 61 00 05 07 are the entry "a" in section 0, seven bytes from 5 on. */
  lemma EntryExample()
    ensures EntryAt([0x01, 0x61, 0x00, 0x05, 0x07], 0) == Some((Entry([0x61], 0, 5, 7), 5))
  {
    var e := Entry([0x61], 0, 5, 7);
    assert Encode(0) == [0] && Encode(1) == [1] && Encode(5) == [5] && Encode(7) == [7];
    assert WriteEntry(e) == [0x01, 0x61, 0x00, 0x05, 0x07] && WriteEntry(e)[0..] == WriteEntry(e) + [];
    EntryReads(WriteEntry(e), 0, e, []);
  }

  // ---------- pages ----------

  function WriteEntries(es: seq<Entry>): seq<Byte>
    requires forall i :: 0 <= i < |es| ==> EntryFits(es[i])
  {
    if es == [] then [] else WriteEntry(es[0]) + WriteEntries(es[1..])
  }

  function WriteItems(es: seq<Item>): seq<Byte>
    requires forall i :: 0 <= i < |es| ==> ItemFits(es[i])
  {
    if es == [] then [] else WriteItem(es[0]) + WriteItems(es[1..])
  }

  // A page of entries: "PMGL", how many bytes at the end are free, a word without a
  // known meaning, the pages before and behind, the entries, and the free bytes.
  function LeafPage(es: seq<Entry>, unknown: nat, prev: int, next: int, free: seq<Byte>): (p: seq<Byte>)
    requires forall i :: 0 <= i < |es| ==> EntryFits(es[i])
    requires -0x8000_0000 <= prev < 0x8000_0000 && -0x8000_0000 <= next < 0x8000_0000
  {
    [0x50, 0x4D, 0x47, 0x4C] + Bytes(|free|, 4) + Bytes(unknown, 4) + Bytes(Unsigned32(prev), 4)
    + Bytes(Unsigned32(next), 4) + WriteEntries(es) + free
  }

  // A page of the index: "PMGI", how many bytes at the end are free, the items, and
  // the free bytes.
  function IndexPage(es: seq<Item>, free: seq<Byte>): (p: seq<Byte>)
    requires forall i :: 0 <= i < |es| ==> ItemFits(es[i])
  {
    [0x50, 0x4D, 0x47, 0x49] + Bytes(|free|, 4) + WriteItems(es) + free
  }

  lemma {:induction false} EntriesRead(p: seq<Byte>, cur: nat, es: seq<Entry>, free: seq<Byte>)
    requires (forall i :: 0 <= i < |es| ==> EntryFits(es[i])) && cur <= |p| && p[cur..] == WriteEntries(es) + free
    ensures Entries(p, cur, |p| - |free|) == Some(es)
    decreases |es|
  {
    hide EntryAt, WriteEntry;
    if es != [] {
      var rest := WriteEntries(es[1..]) + free;
      assert p[cur..] == WriteEntry(es[0]) + rest;
      EntryReads(p, cur, es[0], rest);
      EntriesRead(p, cur + |WriteEntry(es[0])|, es[1..], free);
      assert es == [es[0]] + es[1..];
    }
  }

  lemma {:induction false} ItemsRead(p: seq<Byte>, cur: nat, es: seq<Item>, free: seq<Byte>)
    requires (forall i :: 0 <= i < |es| ==> ItemFits(es[i])) && cur <= |p| && p[cur..] == WriteItems(es) + free
    ensures Items(p, cur, |p| - |free|) == Some(es)
    decreases |es|
  {
    hide ItemAt, WriteItem;
    if es != [] {
      var rest := WriteItems(es[1..]) + free;
      assert p[cur..] == WriteItem(es[0]) + rest;
      ItemReads(p, cur, es[0], rest);
      ItemsRead(p, cur + |WriteItem(es[0])|, es[1..], free);
      assert es == [es[0]] + es[1..];
    }
  }

  lemma WordThere(p: seq<Byte>, i: nat, v: nat)
    requires i + 4 <= |p| && v < 0x1_0000_0000 && p[i..i + 4] == Bytes(v, 4)
    ensures WordAt(p, i) == v
  {
    hide Bytes, Value;
    Value32(v);
    WordIsValue(p[i], p[i + 1], p[i + 2], p[i + 3]);
    assert p[i..i + 4] == [p[i], p[i + 1], p[i + 2], p[i + 3]];
  }

  /** A page of entries is read back: its entries, and the page behind it. */
  lemma LeafReads(es: seq<Entry>, unknown: nat, prev: int, next: int, free: seq<Byte>)
    requires forall i :: 0 <= i < |es| ==> EntryFits(es[i])
    requires -0x8000_0000 <= prev < 0x8000_0000 && -0x8000_0000 <= next < 0x8000_0000 && |free| < 0x1_0000_0000
    ensures var p := LeafPage(es, unknown, prev, next, free);
      IsLeaf(p) && Entries(p, PMGL_LEN, UsedEnd(p)) == Some(es) && BlockNext(p) == next
  {
    hide Bytes, WriteEntries, Entries, WordAt;
    var p := LeafPage(es, unknown, prev, next, free);
    assert p[..4] == [0x50, 0x4D, 0x47, 0x4C] && p[4..8] == Bytes(|free|, 4);
    assert p[16..20] == Bytes(Unsigned32(next), 4) && p[20..] == WriteEntries(es) + free;
    WordThere(p, 4, |free|);
    WordThere(p, 16, Unsigned32(next));
    Space(next);
    EntriesRead(p, 20, es, free);
  }

  lemma IndexReads(es: seq<Item>, free: seq<Byte>)
    requires (forall i :: 0 <= i < |es| ==> ItemFits(es[i])) && |free| < 0x1_0000_0000
    ensures var p := IndexPage(es, free); !IsLeaf(p) && IsIndex(p) && Items(p, PMGI_LEN, UsedEnd(p)) == Some(es)
  {
    hide Bytes, WriteItems, Items, WordAt;
    var p := IndexPage(es, free);
    assert p[..4] == [0x50, 0x4D, 0x47, 0x49] && p[4..8] == Bytes(|free|, 4) && p[8..] == WriteItems(es) + free;
    WordThere(p, 4, |free|);
    ItemsRead(p, 8, es, free);
  }

  // ---------- the directory in the file ----------

  // Page n of the directory is p.
  ghost predicate Stored(h: Header, n: nat, p: seq<Byte>) {
    var at := h.dirOffset + n * h.blockLen;
    && |p| == h.blockLen && at + |p| <= |h.file| && at < 0x1_0000_0000_0000_0000
    && h.file[at..at + |p|] == p
  }

  lemma StoredIs(h: Header, n: nat, p: seq<Byte>)
    requires Stored(h, n, p)
    ensures PageBytes(h, n) == Some(p)
  {
  }

  lemma LeafStored(h: Header, n: nat, es: seq<Entry>, unknown: nat, prev: int, next: int, free: seq<Byte>)
    requires forall i :: 0 <= i < |es| ==> EntryFits(es[i])
    requires -0x8000_0000 <= prev < 0x8000_0000 && -0x8000_0000 <= next < 0x8000_0000 && |free| < 0x1_0000_0000
    requires Stored(h, n, LeafPage(es, unknown, prev, next, free))
    ensures PageAt(h, n) == Leaf(es, next)
  {
    hide IsLeaf, Entries, UsedEnd, BlockNext, PageBytes, LeafPage, Stored;
    StoredIs(h, n, LeafPage(es, unknown, prev, next, free));
    LeafReads(es, unknown, prev, next, free);
  }

  lemma IndexStored(h: Header, n: nat, es: seq<Item>, free: seq<Byte>)
    requires (forall i :: 0 <= i < |es| ==> ItemFits(es[i])) && |free| < 0x1_0000_0000
    requires Stored(h, n, IndexPage(es, free))
    ensures PageAt(h, n) == Index(es)
  {
    hide IsLeaf, IsIndex, Items, UsedEnd, PageBytes, IndexPage, Stored;
    StoredIs(h, n, IndexPage(es, free));
    IndexReads(es, free);
  }

  // An entry of a leaf is one of the directory.
  lemma {:induction false} EntryListed(d: Pages, ns: seq<int>, n: int, i: nat) returns (j: nat)
    requires n in ns && n != -1 && d(n).Leaf? && i < |d(n).entries|
    ensures j < |EntriesOf(d, ns)| && EntriesOf(d, ns)[j] == d(n).entries[i]
    decreases |ns|
  {
    if ns[0] == n {
      j := i;
    } else {
      j := EntryListed(d, ns[1..], n, i);
      j := |EntriesOn(d, ns[0])| + j;
    }
  }

  /** In a directory whose index and leaves agree, an entry that is written on one of
      the leaves is what the lookup of its name gives, and the walk along the leaves
      meets it: section, offset and length as they were written. */
  lemma WrittenIsFound(h: Header, depth: nat, n: nat, es: seq<Entry>, unknown: nat, prev: int, next: int,
                       free: seq<Byte>, i: nat)
    requires forall k :: 0 <= k < |es| ==> EntryFits(es[k])
    requires -0x8000_0000 <= prev < 0x8000_0000 && -0x8000_0000 <= next < 0x8000_0000 && |free| < 0x1_0000_0000
    requires Stored(h, n, LeafPage(es, unknown, prev, next, free)) && i < |es|
    requires WellFormed(PagesOf(h), h.indexRoot, h.indexHead, depth)
    requires n as int in Leaves(PagesOf(h), h.indexRoot, depth)
    ensures Lookup(h, h.indexRoot, depth, es[i].path) == Got(es[i])
    ensures var ns := Leaves(PagesOf(h), h.indexRoot, depth);
      WalkChain(h, h.indexHead, |ns|).1 == Complete && es[i] in WalkChain(h, h.indexHead, |ns|).0
  {
    hide PageAt, LeafPage, Stored, Leaves, Tree, Lookup, WalkChain, Resolve, Sorted;
    var d, ns := PagesOf(h), Leaves(PagesOf(h), h.indexRoot, depth);
    LeafStored(h, n, es, unknown, prev, next, free);
    assert d(n) == PageAt(h, n);
    var j := EntryListed(d, ns, n, i);
    ListedIsFound(d, h.indexRoot, h.indexHead, depth, ns, j);
    ResolveIsScan(d, h.indexRoot, h.indexHead, depth, es[i].path);
    LookupIsResolve(h, h.indexRoot, depth, es[i].path);
    WalkIsChain(h, h.indexHead, ns);
  }

  lemma {:induction false} SearchIff(es: seq<Entry>, path: seq<Byte>)
    ensures Search(es, path).Some? <==> exists j :: 0 <= j < |es| && StrCaseCmp(es[j].path, path) == 0
    ensures Search(es, path).Some? ==> Search(es, path).value in es
    ensures Search(es, path).Some? ==> StrCaseCmp(Search(es, path).value.path, path) == 0
    decreases |es|
  {
    hide StrCaseCmp;
    if es != [] {
      SearchIff(es[1..], path);
      if j :| 0 <= j < |es| && StrCaseCmp(es[j].path, path) == 0 {
        assert j > 0 ==> es[1..][j - 1] == es[j];
      }
      if j :| 0 <= j < |es[1..]| && StrCaseCmp(es[1..][j].path, path) == 0 {
        assert es[j + 1] == es[1..][j];
      }
    }
  }

  /** The lookup fails exactly if no entry of the directory has the name, case aside,
      and what it gives is an entry with that name. */
  lemma FoundIff(h: Header, depth: nat, path: seq<Byte>)
    requires WellFormed(PagesOf(h), h.indexRoot, h.indexHead, depth) && NoZero(path)
    requires forall e :: e in EntriesOf(PagesOf(h), Leaves(PagesOf(h), h.indexRoot, depth)) ==> NoZero(e.path)
    ensures var es := EntriesOf(PagesOf(h), Leaves(PagesOf(h), h.indexRoot, depth));
      var r := Lookup(h, h.indexRoot, depth, path);
      && (r == Failure <==> forall j :: 0 <= j < |es| ==> !SameLetters(es[j].path, path))
      && (r != Failure ==> r.Got? && r.entry in es && SameLetters(r.entry.path, path))
  {
    hide WellFormed, Lookup, Scan, Resolve, Leaves, EntriesOf, Search, SameLetters, StrCaseCmp, NoZero;
    var d := PagesOf(h);
    var es := EntriesOf(d, Leaves(d, h.indexRoot, depth));
    WellFormedLookup(h, depth, path);
    ScanIsSearch(d, Leaves(d, h.indexRoot, depth), path);
    SearchIff(es, path);
    forall j | 0 <= j < |es|
      ensures StrCaseCmp(es[j].path, path) == 0 <==> SameLetters(es[j].path, path)
    {
      assert es[j] in es;
      EqualIff(es[j].path, path);
    }
    if Search(es, path).Some? {
      EqualIff(Search(es, path).value.path, path);
    }
  }
}
