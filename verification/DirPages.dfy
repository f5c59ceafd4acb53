/** The two kinds of directory pages: PMGL leaves with the entries, PMGI pages
    that index them, and the scans over their bytes. */
module DirPages {
  import opened Wrappers
  import opened Canonical
  import opened CaseFold
  import opened Cword
  import opened LittleEndian

  const MAX_PATHLEN: nat := 512
  const PMGL_LEN: nat := 0x14
  const PMGI_LEN: nat := 0x08

  // A directory entry.
  datatype Entry = Entry(path: seq<Byte>, space: int, start: nat, length: nat)

  // An index item: the least name on a page, and the number of the page.
  datatype Item = Item(name: seq<Byte>, page: int)

  function WordAt(p: seq<Byte>, i: nat): (v: nat)
    requires i + 4 <= |p|
    ensures v < 0x1_0000_0000
  {
    Word(p[i], p[i + 1], p[i + 2], p[i + 3])
  }

  function ToInt32(v: nat): (w: int)
    ensures -0x8000_0000 <= w < 0x8000_0000
  {
    var u := v % 0x1_0000_0000;
    if u < 0x8000_0000 then u else u - 0x1_0000_0000
  }

  predicate IsLeaf(p: seq<Byte>) {
    PMGL_LEN <= |p| && p[..4] == [0x50, 0x4D, 0x47, 0x4C]
  }

  predicate IsIndex(p: seq<Byte>) {
    PMGI_LEN <= |p| && p[..4] == [0x50, 0x4D, 0x47, 0x49]
  }

  // Where the used part of a page ends.
  function UsedEnd(p: seq<Byte>): int
    requires 8 <= |p|
  {
    |p| - WordAt(p, 4)
  }

  function BlockNext(p: seq<Byte>): int
    requires PMGL_LEN <= |p|
  {
    ToInt32(WordAt(p, 16))
  }

  // A length-prefixed name; one longer than the buffer is an error, and one that
  // goes on behind the page is read from memory the page does not own.
  datatype NameRead = Name(name: seq<Byte>, next: nat) | LongName | NameOff

  function ReadName(p: seq<Byte>, cur: nat): (r: NameRead)
    ensures r.Name? ==> cur < r.next <= |p|
  {
    match Parse(p, cur, 0)
    case None => NameOff
    case Some(w) =>
      if w.value > MAX_PATHLEN then LongName
      else if w.next + w.value > |p| then NameOff
      else Name(p[w.next..w.next + w.value], w.next + w.value)
  }

  function NameAt(p: seq<Byte>, cur: nat): (r: Option<(seq<Byte>, nat)>)
    ensures r.Some? ==> cur < r.value.1 <= |p|
  {
    match ReadName(p, cur)
    case Name(name, next) => Some((name, next))
    case _ => None
  }

  // The three words behind a name.
  function DataEnd(p: seq<Byte>, cur: nat): (r: Option<nat>)
    ensures r.Some? ==> cur < r.value <= |p|
  {
    match Parse(p, cur, 0)
    case None => None
    case Some(a) =>
      match Parse(p, a.next, 0)
      case None => None
      case Some(b) =>
        match Parse(p, b.next, 0)
        case None => None
        case Some(c) => Some(c.next)
  }

  function EntryAt(p: seq<Byte>, cur: nat): (r: Option<(Entry, nat)>)
    ensures r.Some? ==> cur < r.value.1 <= |p|
  {
    match NameAt(p, cur)
    case None => None
    case Some(n) =>
      match Parse(p, n.1, 0)
      case None => None
      case Some(a) =>
        match Parse(p, a.next, 0)
        case None => None
        case Some(b) =>
          match Parse(p, b.next, 0)
          case None => None
          case Some(c) => Some((Entry(n.0, ToInt32(a.value), b.value, c.value), c.next))
  }

  function ItemAt(p: seq<Byte>, cur: nat): (r: Option<(Item, nat)>)
    ensures r.Some? ==> cur < r.value.1 <= |p|
  {
    match NameAt(p, cur)
    case None => None
    case Some(n) =>
      match Parse(p, n.1, 0)
      case None => None
      case Some(a) => Some((Item(n.0, ToInt32(a.value)), a.next))
  }

  // The entries from a cursor to the end of the used part, if all are in order.
  function Entries(p: seq<Byte>, cur: nat, end: int): Option<seq<Entry>>
    decreases |p| - cur
  {
    if cur >= end then Some([])
    else
      match EntryAt(p, cur)
      case None => None
      case Some(e) =>
        match Entries(p, e.1, end)
        case None => None
        case Some(es) => Some([e.0] + es)
  }

  function Items(p: seq<Byte>, cur: nat, end: int): Option<seq<Item>>
    decreases |p| - cur
  {
    if cur >= end then Some([])
    else
      match ItemAt(p, cur)
      case None => None
      case Some(e) =>
        match Items(p, e.1, end)
        case None => None
        case Some(es) => Some([e.0] + es)
  }

  // The first entry with the name, letter case aside.
  function Search(es: seq<Entry>, path: seq<Byte>): Option<Entry>
    decreases |es|
  {
    if es == [] then None
    else if StrCaseCmp(es[0].path, path) == 0 then Some(es[0])
    else Search(es[1..], path)
  }

  // The page of the last item before the first that is greater than the name.
  function Choose(es: seq<Item>, path: seq<Byte>, page: int): int
    decreases |es|
  {
    if es == [] || StrCaseCmp(es[0].name, path) > 0 then page
    else Choose(es[1..], path, es[0].page)
  }

  // ---------- what a scan meets ----------

  // A scan of a leaf: the cursor of the entry, nothing, or a word or name that goes
  // on behind the page.
  datatype LeafScan = Hit(at: nat) | Miss | LeafOff

  function ScanLeaf(p: seq<Byte>, path: seq<Byte>, cur: nat, end: int): LeafScan
    decreases |p| - cur
  {
    if cur >= end then Miss
    else
      match ReadName(p, cur)
      case NameOff => LeafOff
      case LongName => Miss
      case Name(name, next) =>
        if StrCaseCmp(name, path) == 0 then Hit(cur)
        else
          match DataEnd(p, next)
          case None => LeafOff
          case Some(c) => ScanLeaf(p, path, c, end)
  }

  datatype IndexScan = To(page: int) | IndexOff

  function ScanIndex(p: seq<Byte>, path: seq<Byte>, cur: nat, end: int, page: int): IndexScan
    decreases |p| - cur
  {
    if cur >= end then To(page)
    else
      match ReadName(p, cur)
      case NameOff => IndexOff
      case LongName => To(-1)
      case Name(name, next) =>
        if StrCaseCmp(name, path) > 0 then To(page)
        else
          match Parse(p, next, 0)
          case None => IndexOff
          case Some(w) => ScanIndex(p, path, w.next, end, ToInt32(w.value))
  }

  /** On a leaf whose entries are all in order the scan finds the first entry with
      the name. */
  lemma {:induction false} ScanLeafIs(p: seq<Byte>, path: seq<Byte>, cur: nat, end: int)
    requires Entries(p, cur, end).Some?
    ensures match ScanLeaf(p, path, cur, end)
      case Hit(c) => EntryAt(p, c).Some? && Search(Entries(p, cur, end).value, path) == Some(EntryAt(p, c).value.0)
      case Miss => Search(Entries(p, cur, end).value, path) == None
      case LeafOff => false
    decreases |p| - cur
  {
    hide EntryAt, DataEnd, StrCaseCmp, ReadName;
    if cur < end {
      EntryParts(p, cur);
      NameParts(p, cur);
      if StrCaseCmp(EntryAt(p, cur).value.0.path, path) != 0 {
        ScanLeafIs(p, path, EntryAt(p, cur).value.1, end);
      }
    }
  }

  /** On an index whose items are all in order the scan finds the page to go to. */
  lemma {:induction false} ScanIndexIs(p: seq<Byte>, path: seq<Byte>, cur: nat, end: int, page: int)
    requires Items(p, cur, end).Some?
    ensures ScanIndex(p, path, cur, end, page) == To(Choose(Items(p, cur, end).value, path, page))
    decreases |p| - cur
  {
    hide StrCaseCmp, ReadName, Parse;
    if cur < end {
      NameParts(p, cur);
      ScanIndexIs(p, path, ItemAt(p, cur).value.1, end, ItemAt(p, cur).value.0.page);
    }
  }

  lemma NameParts(p: seq<Byte>, cur: nat)
    requires NameAt(p, cur).Some?
    ensures ReadName(p, cur) == Name(NameAt(p, cur).value.0, NameAt(p, cur).value.1)
  {
  }

  lemma EntryParts(p: seq<Byte>, cur: nat)
    requires EntryAt(p, cur).Some?
    ensures NameAt(p, cur).Some? && DataEnd(p, NameAt(p, cur).value.1) == Some(EntryAt(p, cur).value.1)
    ensures EntryAt(p, cur).value.0.path == NameAt(p, cur).value.0
  {
  }

  // ---------- the scans ----------

  method ParseName(p: seq<Byte>, cur: nat) returns (name: Option<seq<Byte>>, cur': nat)
    requires !ReadName(p, cur).NameOff?
    ensures ReadName(p, cur) == match name case None => LongName case Some(n) => Name(n, cur')
  {
    var len;
    len, cur' := ParseCword(p, cur);
    if len > MAX_PATHLEN {
      return None, cur';
    }
    var path := [];
    var count := len;
    ghost var start := cur';
    while count != 0
      invariant 0 <= count <= len && cur' + count == start + len
      invariant path == p[start..cur']
    {
      path := path + [p[cur']];
      cur', count := cur' + 1, count - 1;
    }
    name := Some(path);
  }

  method SkipEntryData(p: seq<Byte>, cur: nat) returns (cur': nat)
    requires DataEnd(p, cur).Some?
    ensures DataEnd(p, cur) == Some(cur')
  {
    SkipLikeParse(p, cur, 0);
    cur' := SkipCword(p, cur);
    SkipLikeParse(p, cur', 0);
    cur' := SkipCword(p, cur');
    SkipLikeParse(p, cur', 0);
    cur' := SkipCword(p, cur');
  }

  /** _chm_find_in_PMGL, as long as the page is not left. */
  method FindInPmgl(p: seq<Byte>, path: seq<Byte>) returns (r: Option<nat>)
    requires IsLeaf(p) && !ScanLeaf(p, path, PMGL_LEN, UsedEnd(p)).LeafOff?
    ensures ScanLeaf(p, path, PMGL_LEN, UsedEnd(p)) == match r case None => Miss case Some(c) => Hit(c)
  {
    hide ReadName, DataEnd, StrCaseCmp;
    var cur := PMGL_LEN;
    var end := UsedEnd(p);
    ghost var goal := ScanLeaf(p, path, cur, end);
    while cur < end
      invariant ScanLeaf(p, path, cur, end) == goal
      decreases |p| - cur
    {
      var temp := cur;
      var name;
      name, cur := ParseName(p, cur);
      if name.None? {
        return None;
      }
      if StrCaseCmp(name.value, path) == 0 {
        return Some(temp);
      }
      cur := SkipEntryData(p, cur);
    }
    return None;
  }

  // An entry read in full: None for a name that is too long.
  predicate EntryReadable(p: seq<Byte>, cur: nat) {
    ReadName(p, cur).LongName? || EntryAt(p, cur).Some?
  }

  method ParseEntry(p: seq<Byte>, cur: nat) returns (e: Option<Entry>, cur': nat)
    requires EntryReadable(p, cur)
    ensures e.None? <==> ReadName(p, cur).LongName?
    ensures e.Some? ==> EntryAt(p, cur) == Some((e.value, cur'))
  {
    var path, space, start, length;
    path, cur' := ParseName(p, cur);
    if path.None? {
      return None, cur';
    }
    space, cur' := ParseCword(p, cur');
    start, cur' := ParseCword(p, cur');
    length, cur' := ParseCword(p, cur');
    e := Some(Entry(path.value, ToInt32(space), start, length));
  }

  /** _chm_find_in_PMGI, as long as the page is not left: the page to search next, -1
      when there is none. */
  method FindInPmgi(p: seq<Byte>, path: seq<Byte>) returns (page: int)
    requires IsIndex(p) && !ScanIndex(p, path, PMGI_LEN, UsedEnd(p), -1).IndexOff?
    ensures ScanIndex(p, path, PMGI_LEN, UsedEnd(p), -1) == To(page)
  {
    hide ReadName, StrCaseCmp, Parse;
    var cur := PMGI_LEN;
    var end := UsedEnd(p);
    page := -1;
    ghost var goal := ScanIndex(p, path, cur, end, page);
    while cur < end
      invariant ScanIndex(p, path, cur, end, page) == goal
      decreases |p| - cur
    {
      var name, value;
      name, cur := ParseName(p, cur);
      if name.None? {
        return -1;
      }
      if StrCaseCmp(name.value, path) > 0 {
        return page;
      }
      value, cur := ParseCword(p, cur);
      page := ToInt32(value);
    }
  }
}
