/** Names looked up in the bytes of an archive's directory. */
module Directory {
  import opened Wrappers
  import opened Arith
  import opened Canonical
  import opened DirPages
  import opened PageTree

  // What the handle knows of the directory.
  datatype Header = Header(file: seq<Byte>, dirOffset: nat, blockLen: nat, indexRoot: int, indexHead: int)

  // The bytes of a page, if it can be read in full; the offset is computed in 64 bits.
  function PageBytes(h: Header, n: int): Option<seq<Byte>> {
    var os := (h.dirOffset + n * h.blockLen) % UINT64_MOD;
    if os + h.blockLen <= |h.file| then Some(h.file[os..os + h.blockLen]) else None
  }

  function PageAt(h: Header, n: int): Page {
    match PageBytes(h, n)
    case None => Foreign
    case Some(p) =>
      if IsLeaf(p) then
        match Entries(p, PMGL_LEN, UsedEnd(p))
        case None => Damaged
        case Some(es) => Leaf(es, BlockNext(p))
      else if IsIndex(p) then
        match Items(p, PMGI_LEN, UsedEnd(p))
        case None => Damaged
        case Some(es) => Index(es)
      else Foreign
  }

  function PagesOf(h: Header): Pages {
    (n: int) => PageAt(h, n)
  }

  // What the bytes behind each kind of page are.
  lemma PageBytesAre(h: Header, n: int)
    ensures PageAt(h, n).Foreign? <==>
      PageBytes(h, n).None? || (!IsLeaf(PageBytes(h, n).value) && !IsIndex(PageBytes(h, n).value))
    ensures PageAt(h, n).Leaf? ==> PMGL_LEN <= |PageBytes(h, n).value|
    ensures PageAt(h, n).Index? ==> PMGI_LEN <= |PageBytes(h, n).value|
    ensures PageAt(h, n).Leaf? ==>
      && IsLeaf(PageBytes(h, n).value)
      && Entries(PageBytes(h, n).value, PMGL_LEN, UsedEnd(PageBytes(h, n).value)) == Some(PageAt(h, n).entries)
      && BlockNext(PageBytes(h, n).value) == PageAt(h, n).next
    ensures PageAt(h, n).Index? ==>
      && !IsLeaf(PageBytes(h, n).value) && IsIndex(PageBytes(h, n).value)
      && Items(PageBytes(h, n).value, PMGI_LEN, UsedEnd(PageBytes(h, n).value)) == Some(PageAt(h, n).items)
  {
    hide Entries, Items;
  }

  // What the descent comes to on the bytes as they are.  Beyond: a page is left, or
  // the index is deeper than `depth`.
  datatype Answer = Got(entry: Entry) | Failure | Beyond

  function Lookup(h: Header, n: int, depth: nat, path: seq<Byte>): Answer
    decreases depth
  {
    if n == -1 then Failure
    else
      match PageBytes(h, n)
      case None => Failure
      case Some(p) =>
        if IsLeaf(p) then
          match ScanLeaf(p, path, PMGL_LEN, UsedEnd(p))
          case LeafOff => Beyond
          case Miss => Failure
          case Hit(c) => if EntryAt(p, c).Some? then Got(EntryAt(p, c).value.0) else Beyond
        else if IsIndex(p) then
          match ScanIndex(p, path, PMGI_LEN, UsedEnd(p), -1)
          case IndexOff => Beyond
          case To(m) => if depth == 0 then Beyond else Lookup(h, m, depth - 1, path)
        else Failure
  }

  /** Where every page on the way is in order, that is the descent through the pages
      as they are meant. */
  lemma {:induction false} LookupIsResolve(h: Header, n: int, depth: nat, path: seq<Byte>)
    requires Descends(PagesOf(h), n, depth, path)
    ensures Lookup(h, n, depth, path) ==
      match Resolve(PagesOf(h), n, depth, path) case None => Failure case Some(e) => Got(e)
    decreases depth
  {
    hide PageAt, PageBytes, IsLeaf, IsIndex, Entries, Items, Search, Choose, EntryAt, UsedEnd, ScanLeaf, ScanIndex;
    if n != -1 {
      assert PagesOf(h)(n) == PageAt(h, n);
      PageBytesAre(h, n);
      if PageAt(h, n).Leaf? {
        ScanLeafIs(PageBytes(h, n).value, path, PMGL_LEN, UsedEnd(PageBytes(h, n).value));
      } else if PageAt(h, n).Index? {
        ScanIndexIs(PageBytes(h, n).value, path, PMGI_LEN, UsedEnd(PageBytes(h, n).value), -1);
        LookupIsResolve(h, Choose(PageAt(h, n).items, path, -1), depth - 1, path);
      }
    }
  }

  // A well-formed directory is searched without leaving a page.
  lemma WellFormedLookup(h: Header, depth: nat, path: seq<Byte>)
    requires WellFormed(PagesOf(h), h.indexRoot, h.indexHead, depth)
    ensures Lookup(h, h.indexRoot, depth, path) ==
      match Scan(PagesOf(h), Leaves(PagesOf(h), h.indexRoot, depth), path) case None => Failure case Some(e) => Got(e)
  {
    hide WellFormed, Lookup, Scan, Resolve;
    ResolveIsScan(PagesOf(h), h.indexRoot, h.indexHead, depth, path);
    LookupIsResolve(h, h.indexRoot, depth, path);
  }

  /** chm_resolve_object, as long as no page is left and the index ends: the entry or
      the failure that the bytes lead to; on a well-formed directory that is what the
      linear scan gives. */
  method ResolveObject(h: Header, path: seq<Byte>, ghost depth: nat) returns (r: Option<Entry>)
    requires Lookup(h, h.indexRoot, depth, path) != Beyond
    ensures Lookup(h, h.indexRoot, depth, path) == match r case None => Failure case Some(e) => Got(e)
    ensures WellFormed(PagesOf(h), h.indexRoot, h.indexHead, depth) ==>
      r == Scan(PagesOf(h), Leaves(PagesOf(h), h.indexRoot, depth), path)
  {
    hide PageBytes, IsLeaf, IsIndex, EntryAt, UsedEnd, ScanLeaf, ScanIndex, WellFormed, PagesOf;
    if WellFormed(PagesOf(h), h.indexRoot, h.indexHead, depth) {
      WellFormedLookup(h, depth, path);
    }
    var curPage := h.indexRoot;
    ghost var left := depth;
    while curPage != -1
      invariant Lookup(h, curPage, left, path) == Lookup(h, h.indexRoot, depth, path)
      decreases left, curPage != -1
    {
      var page := PageBytes(h, curPage);
      if page.None? {
        return None;
      }
      if IsLeaf(page.value) {
        var at := FindInPmgl(page.value, path);
        if at.None? {
          return None;
        }
        HitIsEntry(page.value, path, at.value);
        var e, _ := ParseEntry(page.value, at.value);
        return e;
      } else if IsIndex(page.value) {
        curPage := FindInPmgi(page.value, path);
        if curPage != -1 {
          left := left - 1;
        }
      } else {
        return None;
      }
    }
    return None;
  }

  lemma HitIsEntry(p: seq<Byte>, path: seq<Byte>, c: nat)
    requires EntryAt(p, c).Some?
    ensures EntryReadable(p, c) && !ReadName(p, c).LongName?
  {
  }

  // ---------- enumeration ----------

  // How the walk over a page or the chain ends: at its end, at something that cannot
  // be read, or behind a page.
  datatype Ending = Complete | Broken | Off

  function WalkPage(p: seq<Byte>, cur: nat, end: int): (seq<Entry>, Ending)
    decreases |p| - cur
  {
    if cur >= end then ([], Complete)
    else if ReadName(p, cur).LongName? then ([], Broken)
    else
      match EntryAt(p, cur)
      case None => ([], Off)
      case Some(e) =>
        var (es, ending) := WalkPage(p, e.1, end);
        ([e.0] + es, ending)
  }

  // The chain from page n on, over at most `most` pages.
  function WalkChain(h: Header, n: int, most: nat): (seq<Entry>, Ending)
    decreases most
  {
    if n == -1 then ([], Complete)
    else if most == 0 then ([], Off)
    else
      match PageBytes(h, n)
      case None => ([], Broken)
      case Some(p) =>
        if !IsLeaf(p) then ([], Broken)
        else
          var (es, ending) := WalkPage(p, PMGL_LEN, UsedEnd(p));
          if ending != Complete then (es, ending)
          else
            var (fs, last) := WalkChain(h, BlockNext(p), most - 1);
            (es + fs, last)
  }

  lemma {:induction false} WalkPageIs(p: seq<Byte>, cur: nat, end: int)
    requires Entries(p, cur, end).Some?
    ensures WalkPage(p, cur, end) == (Entries(p, cur, end).value, Complete)
    decreases |p| - cur
  {
    hide EntryAt, ReadName;
    if cur < end {
      HitIsEntry(p, [], cur);
      WalkPageIs(p, EntryAt(p, cur).value.1, end);
    }
  }

  /** Where every page of the chain is in order, the walk gives all its entries. */
  lemma {:induction false} WalkIsChain(h: Header, n: int, ns: seq<int>)
    requires Chain(PagesOf(h), n, ns)
    ensures WalkChain(h, n, |ns|) == (EntriesOf(PagesOf(h), ns), Complete)
    decreases |ns|
  {
    hide PageAt, PageBytes, IsLeaf, IsIndex, Entries, UsedEnd, BlockNext, WalkPage;
    if ns != [] {
      assert PagesOf(h)(n) == PageAt(h, n);
      PageBytesAre(h, n);
      WalkPageIs(PageBytes(h, n).value, PMGL_LEN, UsedEnd(PageBytes(h, n).value));
      WalkIsChain(h, BlockNext(PageBytes(h, n).value), ns[1..]);
    }
  }

  // One page of the chain: its entries behind those already taken.
  method TakePage(p: seq<Byte>, before: seq<Entry>) returns (es: seq<Entry>, ok: bool)
    requires PMGL_LEN <= |p| && WalkPage(p, PMGL_LEN, UsedEnd(p)).1 != Off
    ensures es == before + WalkPage(p, PMGL_LEN, UsedEnd(p)).0
    ensures ok <==> WalkPage(p, PMGL_LEN, UsedEnd(p)).1 == Complete
  {
    hide EntryAt, ReadName, UsedEnd;
    es, ok := before, true;
    var cur: nat, end := PMGL_LEN, UsedEnd(p);
    ghost var goal := WalkPage(p, cur, end);
    while cur < end
      invariant before + goal.0 == es + WalkPage(p, cur, end).0 && goal.1 == WalkPage(p, cur, end).1
      decreases |p| - cur
    {
      var e;
      e, cur := ParseEntry(p, cur);
      if e.None? {
        return es, false;
      }
      es := es + [e.value];
    }
  }

  /** The chain walk of chm_enumerate, for a caller that takes every entry: the
      entries up to the end of the chain, or to the first page or entry that cannot
      be read. */
  method Enumerate(h: Header, ghost most: nat) returns (es: seq<Entry>, ok: bool)
    requires WalkChain(h, h.indexHead, most).1 != Off
    ensures WalkChain(h, h.indexHead, most) == (es, if ok then Complete else Broken)
  {
    hide PageBytes, IsLeaf, WalkPage, UsedEnd, BlockNext;
    es, ok := [], true;
    var curPage := h.indexHead;
    ghost var left, goal := most, WalkChain(h, h.indexHead, most);
    assert [] + goal.0 == goal.0;
    while curPage != -1
      invariant ok && goal == (es + WalkChain(h, curPage, left).0, WalkChain(h, curPage, left).1)
      decreases left
    {
      assert es + [] == es;
      var p := PageBytes(h, curPage);
      if p.None? || !IsLeaf(p.value) {
        return es, false;
      }
      assert PMGL_LEN <= |p.value| by {
        LeafSize(p.value);
      }
      ghost var before, page := es, WalkPage(p.value, PMGL_LEN, UsedEnd(p.value));
      es, ok := TakePage(p.value, es);
      ghost var rest := WalkChain(h, BlockNext(p.value), left - 1);
      assert before + (page.0 + rest.0) == es + rest.0;
      if !ok {
        return;
      }
      curPage := BlockNext(p.value);
      left := left - 1;
    }
    assert es + [] == es;
  }

  lemma LeafSize(p: seq<Byte>)
    requires IsLeaf(p)
    ensures PMGL_LEN <= |p|
  {
  }
}
